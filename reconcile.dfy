/**
 * What the reconciler (`checkRecipt`, `checkConfirmations`, `checkPackedTransaction`,
 * src/ParallelSigner.ts:570-705) decides at one nonce, and the safety invariant
 * its store writes keep: a request only ever receives the hash of an attempt that
 * carries it and is final on the ledger, and an attempt's confirmation is only
 * ever set to its own final receipt depth.
 */
module Reconcile {
  import opened Records
  import opened RequestStore
  import opened Selection

  /** The attempt's receipt is at least `threshold` blocks deep. */
  predicate Final(p: PackedTransaction, receipts: Receipts, threshold: nat)
  {
    p.transactionHash in receipts && receipts[p.transactionHash] >= threshold
  }

  // ---------------------------------------------------------------- one receipt

  /**
   * `checkRecipt(v, result)`: whether to stop scanning (any receipt) and the new
   * cursor (0 once the receipt is final, else `result` unchanged).
   */
  function ReceiptOutcome(v: PackedTransaction, result: int, receipts: Receipts, threshold: nat): (o: (bool, int))
    ensures o.0 <==> Landed(v, receipts)
    ensures o.1 == 0 || o.1 == result
    ensures o.1 != result ==> Final(v, receipts, threshold)
    ensures Final(v, receipts, threshold) ==> o.1 == 0
  {
    if v.transactionHash in receipts then
      (true, if receipts[v.transactionHash] >= threshold then 0 else result)
    else (false, result)
  }

  /**
   * The tables after `checkRecipt(v, _)`: when the receipt is final, the requests
   * of `v` take its hash and `v`'s row records the depth; otherwise nothing changes.
   */
  function AfterReceipt(rs: seq<Request>, ps: seq<PackedTransaction>, v: PackedTransaction, receipts: Receipts, threshold: nat)
    : (seq<Request>, seq<PackedTransaction>)
  {
    if Final(v, receipts, threshold) then
      (WithTxId(rs, v.requestIds, v.transactionHash), WithConfirmation(ps, v.id, receipts[v.transactionHash]))
    else (rs, ps)
  }

  // ---------------------------------------------------------------- one nonce

  /** What the scan of `checkConfirmations` meets first among the siblings at a nonce. */
  datatype Verdict =
    | NothingLanded                                  // every sibling is below the threshold and has no receipt
    | AlreadyFinal                                   // a sibling already records a confirmation at the threshold
    | Found(attempt: PackedTransaction, depth: nat)  // a sibling below the threshold has a receipt this deep

  /** Every sibling before position `k` is below the threshold and has no receipt. */
  ghost predicate Passed(sibs: seq<PackedTransaction>, k: int, receipts: Receipts, threshold: nat)
    requires 0 <= k <= |sibs|
  {
    forall j :: 0 <= j < k ==> sibs[j].confirmation < threshold && !Landed(sibs[j], receipts)
  }

  /** The scan in table order: the first sibling that is already final or has a receipt decides. */
  function FirstVerdict(sibs: seq<PackedTransaction>, receipts: Receipts, threshold: nat): (v: Verdict)
    ensures v.NothingLanded? <==> Passed(sibs, |sibs|, receipts, threshold)
    ensures v.AlreadyFinal? ==> exists p :: p in sibs && p.confirmation >= threshold
    ensures v.Found? ==>
      && v.attempt in sibs && v.attempt.confirmation < threshold && Landed(v.attempt, receipts)
      && v.depth == receipts[v.attempt.transactionHash]
  {
    if sibs == [] then NothingLanded
    else if sibs[0].confirmation >= threshold then AlreadyFinal
    else if sibs[0].transactionHash in receipts then Found(sibs[0], receipts[sibs[0].transactionHash])
    else
      var v := FirstVerdict(sibs[1..], receipts, threshold);
      assert forall x :: x in sibs[1..] ==> x in sibs;
      assert Passed(sibs, |sibs|, receipts, threshold) <==> Passed(sibs[1..], |sibs| - 1, receipts, threshold) by {
        assert forall j :: 0 < j < |sibs| ==> sibs[j] == sibs[1..][j - 1];
      }
      v
  }

  /**
   * The scan at position `k`: a sibling already at the threshold decides `AlreadyFinal`,
   * one below it with a receipt decides `Found`, and one without a receipt is passed over.
   */
  lemma VerdictAt(sibs: seq<PackedTransaction>, k: int, receipts: Receipts, threshold: nat)
    requires 0 <= k < |sibs|
    ensures sibs[k].confirmation >= threshold ==> FirstVerdict(sibs[k..], receipts, threshold) == AlreadyFinal
    ensures sibs[k].confirmation < threshold && Landed(sibs[k], receipts) ==>
      FirstVerdict(sibs[k..], receipts, threshold) == Found(sibs[k], receipts[sibs[k].transactionHash])
    ensures sibs[k].confirmation < threshold && !Landed(sibs[k], receipts) ==>
      FirstVerdict(sibs[k..], receipts, threshold) == FirstVerdict(sibs[k + 1..], receipts, threshold)
  {
    assert sibs[k..][0] == sibs[k] && sibs[k..][1..] == sibs[k + 1..];
  }

  /** The verdict stops the backward walk: a recorded or a freshly found final confirmation. */
  predicate Finalizes(v: Verdict, threshold: nat)
  {
    v.AlreadyFinal? || (v.Found? && v.depth >= threshold)
  }

  /**
   * `checkConfirmations(nonce)`'s result: 0 for no siblings or a verdict that
   * finalizes, otherwise the smallest sibling id, the walk's next cursor.
   */
  function Cursor(sibs: seq<PackedTransaction>, receipts: Receipts, threshold: nat): (c: int)
    ensures c == 0 || c in AttemptIds(sibs)
    ensures c == 0 || forall p :: p in sibs ==> c <= p.id
  {
    if sibs == [] || Finalizes(FirstVerdict(sibs, receipts, threshold), threshold) then 0
    else
      var ids := AttemptIds(sibs);
      assert forall p :: p in sibs ==> p.id in ids by {
        forall p | p in sibs ensures p.id in ids {
          var i :| 0 <= i < |sibs| && sibs[i] == p;
          assert ids[i] == p.id;
        }
      }
      Min(ids)
  }

  /**
   * With store-assigned (positive) ids the cursor is 0 exactly when the walk must
   * stop, and is otherwise at most the id of every sibling, so the walk that owns
   * a sibling strictly descends.
   */
  lemma CursorStopsIff(sibs: seq<PackedTransaction>, receipts: Receipts, threshold: nat)
    requires forall i :: 0 <= i < |sibs| ==> sibs[i].id > 0
    ensures Cursor(sibs, receipts, threshold) == 0 <==>
      sibs == [] || Finalizes(FirstVerdict(sibs, receipts, threshold), threshold)
  {
    assert forall i :: 0 <= i < |AttemptIds(sibs)| ==> AttemptIds(sibs)[i] > 0;
  }

  /** The tables after `checkConfirmations`: only a freshly found final receipt writes. */
  function AfterVerdict(rs: seq<Request>, ps: seq<PackedTransaction>, v: Verdict, receipts: Receipts, threshold: nat)
    : (seq<Request>, seq<PackedTransaction>)
  {
    if v.Found? then AfterReceipt(rs, ps, v.attempt, receipts, threshold) else (rs, ps)
  }

  // ---------------------------------------------------------------- safety invariant

  /** Two attempt rows that agree in everything but the recorded confirmation. */
  predicate ShapeEq(x: PackedTransaction, y: PackedTransaction)
  {
    x.(confirmation := 0) == y.(confirmation := 0)
  }

  /** A request row is unchanged, or took the hash of a final attempt in `a0` that carries it. */
  ghost predicate RequestStep(r0: Request, r1: Request, a0: seq<PackedTransaction>, receipts: Receipts, threshold: nat)
  {
    r1 == r0 ||
    (&& r1 == r0.(txId := r1.txId) && r1.txId.Some? && r0.id.Some?
     && exists p :: p in a0 && Final(p, receipts, threshold) && p.transactionHash == r1.txId.value
                    && r0.id.value in p.requestIds)
  }

  /** An attempt row is unchanged, or is final and records its own receipt depth. */
  ghost predicate AttemptStep(p0: PackedTransaction, p1: PackedTransaction, receipts: Receipts, threshold: nat)
  {
    p1 == p0 ||
    (p1 == p0.(confirmation := p1.confirmation) && Final(p0, receipts, threshold)
     && p1.confirmation == receipts[p0.transactionHash])
  }

  /** Every change from `(r0, a0)` to `(r1, a1)` is backed by a final receipt, row by row. */
  ghost predicate Justified(r0: seq<Request>, a0: seq<PackedTransaction>, r1: seq<Request>, a1: seq<PackedTransaction>,
                            receipts: Receipts, threshold: nat)
  {
    && |r1| == |r0| && |a1| == |a0|
    && (forall i :: 0 <= i < |r0| ==> RequestStep(r0[i], r1[i], a0, receipts, threshold))
    && (forall i :: 0 <= i < |a0| ==> AttemptStep(a0[i], a1[i], receipts, threshold))
  }

  lemma JustifiedRefl(rs: seq<Request>, ps: seq<PackedTransaction>, receipts: Receipts, threshold: nat)
    ensures Justified(rs, ps, rs, ps, receipts, threshold)
  {
  }

  /** A justified change keeps every attempt row's shape, so an attempt of `a0` is still in `a1` up to its confirmation. */
  lemma JustifiedKeepsShapes(r0: seq<Request>, a0: seq<PackedTransaction>, r1: seq<Request>, a1: seq<PackedTransaction>,
                             receipts: Receipts, threshold: nat)
    requires Justified(r0, a0, r1, a1, receipts, threshold)
    ensures forall i :: 0 <= i < |a0| ==> ShapeEq(a0[i], a1[i])
    ensures forall i :: 0 <= i < |r0| ==> r1[i].id == r0[i].id
  {
    forall i | 0 <= i < |a0| ensures ShapeEq(a0[i], a1[i]) {
      assert AttemptStep(a0[i], a1[i], receipts, threshold);
    }
    forall i | 0 <= i < |r0| ensures r1[i].id == r0[i].id {
      assert RequestStep(r0[i], r1[i], a0, receipts, threshold);
    }
  }

  /** Justified changes compose: a run of reconciler writes is justified against the starting tables. */
  lemma JustifiedTrans(r0: seq<Request>, a0: seq<PackedTransaction>, r1: seq<Request>, a1: seq<PackedTransaction>,
                       r2: seq<Request>, a2: seq<PackedTransaction>, receipts: Receipts, threshold: nat)
    requires Justified(r0, a0, r1, a1, receipts, threshold)
    requires Justified(r1, a1, r2, a2, receipts, threshold)
    ensures Justified(r0, a0, r2, a2, receipts, threshold)
  {
    JustifiedKeepsShapes(r0, a0, r1, a1, receipts, threshold);
    forall i | 0 <= i < |r0| ensures RequestStep(r0[i], r2[i], a0, receipts, threshold) {
      assert RequestStep(r0[i], r1[i], a0, receipts, threshold);
      assert RequestStep(r1[i], r2[i], a1, receipts, threshold);
      if r2[i] != r1[i] {
        var p :| p in a1 && Final(p, receipts, threshold) && p.transactionHash == r2[i].txId.value
                 && r1[i].id.value in p.requestIds;
        var j :| 0 <= j < |a1| && a1[j] == p;
        assert ShapeEq(a0[j], a1[j]);
        assert a0[j] in a0 && Final(a0[j], receipts, threshold);
      }
    }
    forall i | 0 <= i < |a0| ensures AttemptStep(a0[i], a2[i], receipts, threshold) {
      assert AttemptStep(a0[i], a1[i], receipts, threshold);
      assert AttemptStep(a1[i], a2[i], receipts, threshold);
    }
  }

  /**
   * One `checkRecipt` write is justified when the attempt it reads is a row of the
   * table (up to its confirmation) and attempt ids are unique.
   */
  lemma AfterReceiptJustified(rs: seq<Request>, ps: seq<PackedTransaction>, v: PackedTransaction, receipts: Receipts, threshold: nat)
    requires AttemptsValid(ps)
    requires exists q :: q in ps && ShapeEq(q, v)
    ensures Justified(rs, ps, AfterReceipt(rs, ps, v, receipts, threshold).0, AfterReceipt(rs, ps, v, receipts, threshold).1,
                      receipts, threshold)
  {
    if Final(v, receipts, threshold) {
      var q :| q in ps && ShapeEq(q, v);
      var j :| 0 <= j < |ps| && ps[j] == q;
      var r1 := WithTxId(rs, v.requestIds, v.transactionHash);
      var a1 := WithConfirmation(ps, v.id, receipts[v.transactionHash]);
      forall i | 0 <= i < |rs| ensures RequestStep(rs[i], r1[i], ps, receipts, threshold) {
        assert q.transactionHash == v.transactionHash && q.requestIds == v.requestIds;
      }
      forall i | 0 <= i < |ps| ensures AttemptStep(ps[i], a1[i], receipts, threshold) {
        if ps[i].id == v.id {
          assert i == j;
        }
      }
    }
  }

  /** A justified change keeps the store's validity. */
  lemma JustifiedKeepsValid(r0: seq<Request>, a0: seq<PackedTransaction>, r1: seq<Request>, a1: seq<PackedTransaction>,
                            receipts: Receipts, threshold: nat)
    requires Justified(r0, a0, r1, a1, receipts, threshold)
    requires RequestsValid(r0) && AttemptsValid(a0)
    ensures RequestsValid(r1) && AttemptsValid(a1)
  {
    JustifiedKeepsShapes(r0, a0, r1, a1, receipts, threshold);
    forall i | 0 <= i < |a0| ensures a1[i].id == a0[i].id && a1[i].requestIds == a0[i].requestIds {
      assert ShapeEq(a0[i], a1[i]);
    }
  }

  /** The writes of one `checkConfirmations` call are justified. */
  lemma VerdictJustified(rs: seq<Request>, ps: seq<PackedTransaction>, nonce: int, receipts: Receipts, threshold: nat)
    requires AttemptsValid(ps)
    ensures var t := AfterVerdict(rs, ps, FirstVerdict(Siblings(ps, nonce), receipts, threshold), receipts, threshold);
            Justified(rs, ps, t.0, t.1, receipts, threshold)
  {
    var v := FirstVerdict(Siblings(ps, nonce), receipts, threshold);
    if v.Found? {
      assert v.attempt in ps && ShapeEq(v.attempt, v.attempt);
      AfterReceiptJustified(rs, ps, v.attempt, receipts, threshold);
    }
  }

  /** A `checkRecipt` on an attempt of the starting table extends a justified run of writes. */
  lemma ReceiptKeepsJustified(r0: seq<Request>, a0: seq<PackedTransaction>, r1: seq<Request>, a1: seq<PackedTransaction>,
                              v: PackedTransaction, receipts: Receipts, threshold: nat)
    requires Justified(r0, a0, r1, a1, receipts, threshold) && AttemptsValid(a1) && v in a0
    ensures var t := AfterReceipt(r1, a1, v, receipts, threshold);
            Justified(r0, a0, t.0, t.1, receipts, threshold)
  {
    JustifiedKeepsShapes(r0, a0, r1, a1, receipts, threshold);
    var k :| 0 <= k < |a0| && a0[k] == v;
    assert a1[k] in a1 && ShapeEq(a1[k], v);
    AfterReceiptJustified(r1, a1, v, receipts, threshold);
    var t := AfterReceipt(r1, a1, v, receipts, threshold);
    JustifiedTrans(r0, a0, r1, a1, t.0, t.1, receipts, threshold);
  }

  /** A `checkConfirmations` call extends a justified run of writes. */
  lemma VerdictKeepsJustified(r0: seq<Request>, a0: seq<PackedTransaction>, r1: seq<Request>, a1: seq<PackedTransaction>,
                              nonce: int, receipts: Receipts, threshold: nat)
    requires Justified(r0, a0, r1, a1, receipts, threshold) && AttemptsValid(a1)
    ensures var t := AfterVerdict(r1, a1, FirstVerdict(Siblings(a1, nonce), receipts, threshold), receipts, threshold);
            Justified(r0, a0, t.0, t.1, receipts, threshold)
  {
    VerdictJustified(r1, a1, nonce, receipts, threshold);
    var t := AfterVerdict(r1, a1, FirstVerdict(Siblings(a1, nonce), receipts, threshold), receipts, threshold);
    JustifiedTrans(r0, a0, r1, a1, t.0, t.1, receipts, threshold);
  }

  /** An attempt of the table after justified writes is, up to its confirmation, a row of the starting table. */
  lemma JustifiedRowsFromStart(r0: seq<Request>, a0: seq<PackedTransaction>, r1: seq<Request>, a1: seq<PackedTransaction>,
                               receipts: Receipts, threshold: nat)
    requires Justified(r0, a0, r1, a1, receipts, threshold)
    ensures forall p :: p in a1 ==> exists q :: q in a0 && ShapeEq(p, q)
  {
    JustifiedKeepsShapes(r0, a0, r1, a1, receipts, threshold);
    forall p | p in a1 ensures exists q :: q in a0 && ShapeEq(p, q) {
      var k :| 0 <= k < |a1| && a1[k] == p;
      assert a0[k] in a0 && ShapeEq(p, a0[k]);
    }
  }

  /**
   * Justified writes keep every attempt contiguous and within the batch limit:
   * no request id and no attempt's request list changes.
   */
  lemma JustifiedKeepsBatches(r0: seq<Request>, a0: seq<PackedTransaction>, r1: seq<Request>, a1: seq<PackedTransaction>,
                              receipts: Receipts, threshold: nat, limit: nat)
    requires Justified(r0, a0, r1, a1, receipts, threshold)
    requires AllContiguous(a0, r0) && AttemptsWithin(a0, limit)
    ensures AllContiguous(a1, r1) && AttemptsWithin(a1, limit)
  {
    JustifiedKeepsShapes(r0, a0, r1, a1, receipts, threshold);
    forall i | 0 <= i < |a0| ensures a1[i].requestIds == a0[i].requestIds {
      assert ShapeEq(a0[i], a1[i]);
    }
    SameIdsKeepContiguous(a0, r0, a1, r1);
    forall p | p in a1 ensures |p.requestIds| <= limit {
      var i :| 0 <= i < |a1| && a1[i] == p;
      assert a0[i] in a0;
    }
  }

  /**
   * The attempts re-checked at the end of a reconciliation cycle are unconfirmed rows
   * of the table the walk left, so each is a row of the starting table up to its
   * confirmation.
   */
  lemma UnconfirmedFromStart(r0: seq<Request>, a0: seq<PackedTransaction>, r1: seq<Request>, a1: seq<PackedTransaction>,
                             nonce: int, receipts: Receipts, threshold: nat)
    requires Justified(r0, a0, r1, a1, receipts, threshold)
    ensures forall p :: p in Unconfirmed(a1, nonce) ==> p.confirmation == 0 && exists q :: q in a0 && ShapeEq(p, q)
  {
    JustifiedRowsFromStart(r0, a0, r1, a1, receipts, threshold);
  }

  // ---------------------------------------------------------------- the cycle's writes

  /** A verdict that does not stop the walk writes nothing: a receipt below the threshold is not persisted. */
  lemma NonFinalizingWritesNothing(rs: seq<Request>, ps: seq<PackedTransaction>, sibs: seq<PackedTransaction>,
                                   receipts: Receipts, threshold: nat)
    requires !Finalizes(FirstVerdict(sibs, receipts, threshold), threshold)
    ensures AfterVerdict(rs, ps, FirstVerdict(sibs, receipts, threshold), receipts, threshold) == (rs, ps)
  {
  }

  /**
   * A freshly found final receipt gives every request of that attempt the attempt's
   * hash, and records the receipt's depth on the attempt's row.
   */
  lemma FinalizingVerdictMarks(rs: seq<Request>, ps: seq<PackedTransaction>, sibs: seq<PackedTransaction>,
                               receipts: Receipts, threshold: nat)
    requires FirstVerdict(sibs, receipts, threshold).Found?
    requires Finalizes(FirstVerdict(sibs, receipts, threshold), threshold)
    ensures var v := FirstVerdict(sibs, receipts, threshold);
            var t := AfterVerdict(rs, ps, v, receipts, threshold);
            && (forall i :: 0 <= i < |rs| && rs[i].id.Some? && rs[i].id.value in v.attempt.requestIds ==>
                  t.0[i] == rs[i].(txId := Some(v.attempt.transactionHash)))
            && (forall i :: 0 <= i < |ps| && ps[i].id == v.attempt.id ==> t.1[i] == ps[i].(confirmation := v.depth))
  {
  }

  /** The tables after `checkRecipt` on each attempt of `vs` in turn. */
  function AfterReceipts(rs: seq<Request>, ps: seq<PackedTransaction>, vs: seq<PackedTransaction>,
                         receipts: Receipts, threshold: nat): (t: (seq<Request>, seq<PackedTransaction>))
    ensures |t.0| == |rs| && |t.1| == |ps|
    ensures forall i :: 0 <= i < |rs| ==> t.0[i].id == rs[i].id
    decreases |vs|
  {
    if vs == [] then (rs, ps)
    else
      var t := AfterReceipts(rs, ps, vs[..|vs| - 1], receipts, threshold);
      AfterReceipt(t.0, t.1, vs[|vs| - 1], receipts, threshold)
  }

  /**
   * After probing every attempt of `vs`, a request carried by some probed attempt
   * with a final receipt holds the hash of such an attempt (the last one probed).
   */
  lemma {:induction false} AfterReceiptsMarks(rs: seq<Request>, ps: seq<PackedTransaction>, vs: seq<PackedTransaction>,
                                              receipts: Receipts, threshold: nat, i: int)
    requires 0 <= i < |rs| && rs[i].id.Some?
    requires exists v :: v in vs && Final(v, receipts, threshold) && rs[i].id.value in v.requestIds
    ensures var r := AfterReceipts(rs, ps, vs, receipts, threshold).0[i];
            && r.txId.Some?
            && exists v :: v in vs && Final(v, receipts, threshold) && rs[i].id.value in v.requestIds
                           && r.txId.value == v.transactionHash
    decreases |vs|
  {
    var init, last := vs[..|vs| - 1], vs[|vs| - 1];
    assert vs == init + [last];
    var t := AfterReceipts(rs, ps, init, receipts, threshold);
    assert AfterReceipts(rs, ps, vs, receipts, threshold) == AfterReceipt(t.0, t.1, last, receipts, threshold);
    if Final(last, receipts, threshold) && rs[i].id.value in last.requestIds {
      assert WithTxId(t.0, last.requestIds, last.transactionHash)[i] == t.0[i].(txId := Some(last.transactionHash));
    } else {
      var v :| v in vs && Final(v, receipts, threshold) && rs[i].id.value in v.requestIds;
      assert v in init;
      AfterReceiptsMarks(rs, ps, init, receipts, threshold, i);
      if Final(last, receipts, threshold) {
        assert WithTxId(t.0, last.requestIds, last.transactionHash)[i] == t.0[i];
      }
    }
  }

  // ---------------------------------------------------------------- the reconciliation walk

  /**
   * No attempt with id in `[cursor, top)` and a nonce below the ledger's sits at a
   * nonce whose verdict finalizes.
   */
  ghost predicate NothingFinalBetween(atts: seq<PackedTransaction>, nonce: int, receipts: Receipts, threshold: nat,
                                      cursor: int, top: int)
  {
    forall p :: p in atts && cursor <= p.id < top && p.nonce < nonce ==>
      !Finalizes(FirstVerdict(Siblings(atts, p.nonce), receipts, threshold), threshold)
  }

  /** In a valid table an id names at most one attempt. */
  lemma IdsUnique(atts: seq<PackedTransaction>, p: PackedTransaction, q: PackedTransaction)
    requires AttemptsValid(atts) && p in atts && q in atts && p.id == q.id
    ensures p == q
  {
    var i :| 0 <= i < |atts| && atts[i] == p;
    var j :| 0 <= j < |atts| && atts[j] == q;
    assert i == j;
  }

  /** In a valid table no two attempts share an id. */
  lemma IdsDistinct(atts: seq<PackedTransaction>)
    requires AttemptsValid(atts)
    ensures forall p, q :: p in atts && q in atts && p.id == q.id ==> p == q
  {
    forall p, q | p in atts && q in atts && p.id == q.id ensures p == q {
      IdsUnique(atts, p, q);
    }
  }

  /** Skipping an attempt at or above the ledger nonce keeps the reconciliation walk's invariant. */
  lemma SkipKeepsNothingFinal(atts: seq<PackedTransaction>, nonce: int, receipts: Receipts, threshold: nat,
                              cursor: int, top: int, next: PackedTransaction)
    requires AttemptsValid(atts) && NothingFinalBetween(atts, nonce, receipts, threshold, cursor, top)
    requires Highest(atts, IdBelow(cursor)) == Some(next) && next.nonce >= nonce
    ensures NothingFinalBetween(atts, nonce, receipts, threshold, next.id, top)
  {
    IdsDistinct(atts);
    forall p | p in atts && next.id <= p.id < top && p.nonce < nonce
      ensures !Finalizes(FirstVerdict(Siblings(atts, p.nonce), receipts, threshold), threshold)
    {
      assert p.id < cursor ==> Matches(p, IdBelow(cursor));
    }
  }

  /**
   * Moving the cursor to the lowest sibling id at `next`'s nonce, whose verdict does not
   * finalize, keeps the invariant when the nonces never decrease along the ids.
   */
  lemma ScanKeepsNothingFinal(atts: seq<PackedTransaction>, nonce: int, receipts: Receipts, threshold: nat,
                              cursor: int, top: int, next: PackedTransaction)
    requires NoncesMonotone(atts) && NothingFinalBetween(atts, nonce, receipts, threshold, cursor, top)
    requires Highest(atts, IdBelow(cursor)) == Some(next) && next.nonce < nonce
    requires !Finalizes(FirstVerdict(Siblings(atts, next.nonce), receipts, threshold), threshold)
    ensures NothingFinalBetween(atts, nonce, receipts, threshold,
                                Cursor(Siblings(atts, next.nonce), receipts, threshold), top)
  {
    var sibs := Siblings(atts, next.nonce);
    assert next in sibs;
    var c := Cursor(sibs, receipts, threshold);
    assert c == Min(AttemptIds(sibs));
    var k :| 0 <= k < |AttemptIds(sibs)| && AttemptIds(sibs)[k] == c;
    var s := sibs[k];
    assert s in sibs && s.id == c;
    forall p | p in atts && c <= p.id < top && p.nonce < nonce
      ensures !Finalizes(FirstVerdict(Siblings(atts, p.nonce), receipts, threshold), threshold)
    {
      if p.id < cursor {
        assert Matches(p, IdBelow(cursor));
        assert s.nonce <= p.nonce <= next.nonce;
      }
    }
  }

  /**
   * When the walk stops at `next`'s nonce, no nonce between it and the ledger's, among
   * the attempts below `top`, finalizes: the walk stops at the newest final nonce.
   */
  lemma StopIsNewestFinal(atts: seq<PackedTransaction>, nonce: int, receipts: Receipts, threshold: nat,
                          cursor: int, top: int, next: PackedTransaction)
    requires NoncesMonotone(atts) && NothingFinalBetween(atts, nonce, receipts, threshold, cursor, top)
    requires Highest(atts, IdBelow(cursor)) == Some(next)
    ensures forall p :: p in atts && p.id < top && next.nonce < p.nonce < nonce ==>
      !Finalizes(FirstVerdict(Siblings(atts, p.nonce), receipts, threshold), threshold)
  {
    forall p | p in atts && p.id < top && next.nonce < p.nonce < nonce
      ensures !Finalizes(FirstVerdict(Siblings(atts, p.nonce), receipts, threshold), threshold)
    {
      assert p.id < cursor ==> Matches(p, IdBelow(cursor));
    }
  }

  /**
   * One nonce visited by the reconciliation walk, at `next` (the highest attempt
   * below the cursor, below the ledger nonce): the new cursor is strictly lower,
   * and it is 0 exactly when the verdict there finalizes.
   */
  lemma WalkVisit(a0: seq<PackedTransaction>, receipts: Receipts, threshold: nat, cursor: int, next: PackedTransaction)
    requires AttemptsValid(a0) && Highest(a0, IdBelow(cursor)) == Some(next)
    ensures var c := Cursor(Siblings(a0, next.nonce), receipts, threshold);
            && c < cursor
            && (c == 0 <==> Finalizes(FirstVerdict(Siblings(a0, next.nonce), receipts, threshold), threshold))
  {
    var sibs := Siblings(a0, next.nonce);
    assert next in sibs;
    SiblingIdsPositive(a0, next.nonce);
    CursorStopsIff(sibs, receipts, threshold);
    CursorBelow(a0, sibs, receipts, threshold, cursor, next);
  }

  /** A visited nonce whose verdict does not finalize writes nothing and moves the walk's invariant down. */
  lemma WalkPass(r0: seq<Request>, a0: seq<PackedTransaction>, nonce: int, receipts: Receipts, threshold: nat,
                 cursor: int, top: int, next: PackedTransaction)
    requires NoncesMonotone(a0) ==> NothingFinalBetween(a0, nonce, receipts, threshold, cursor, top)
    requires Highest(a0, IdBelow(cursor)) == Some(next) && next.nonce < nonce
    requires !Finalizes(FirstVerdict(Siblings(a0, next.nonce), receipts, threshold), threshold)
    ensures AfterVerdict(r0, a0, FirstVerdict(Siblings(a0, next.nonce), receipts, threshold), receipts, threshold) == (r0, a0)
    ensures NoncesMonotone(a0) ==>
      NothingFinalBetween(a0, nonce, receipts, threshold, Cursor(Siblings(a0, next.nonce), receipts, threshold), top)
  {
    NonFinalizingWritesNothing(r0, a0, Siblings(a0, next.nonce), receipts, threshold);
    if NoncesMonotone(a0) {
      ScanKeepsNothingFinal(a0, nonce, receipts, threshold, cursor, top, next);
    }
  }

  /** A visited nonce whose verdict finalizes ends the walk: its write is justified and no newer nonce finalizes. */
  lemma WalkStop(r0: seq<Request>, a0: seq<PackedTransaction>, nonce: int, receipts: Receipts, threshold: nat,
                 cursor: int, start: PackedTransaction, next: PackedTransaction)
    requires AttemptsValid(a0)
    requires NoncesMonotone(a0) ==> NothingFinalBetween(a0, nonce, receipts, threshold, cursor, start.id + 1)
    requires Highest(a0, IdBelow(cursor)) == Some(next)
    ensures var t := AfterVerdict(r0, a0, FirstVerdict(Siblings(a0, next.nonce), receipts, threshold), receipts, threshold);
            Justified(r0, a0, t.0, t.1, receipts, threshold)
    ensures WalkEnded(a0, nonce, receipts, threshold, start, next.nonce, true)
  {
    VerdictJustified(r0, a0, next.nonce, receipts, threshold);
    if NoncesMonotone(a0) {
      StopIsNewestFinal(a0, nonce, receipts, threshold, cursor, start.id + 1, next);
    }
  }

  /** The cursor after visiting `next`'s siblings is below the cursor that led to `next`. */
  lemma CursorBelow(a0: seq<PackedTransaction>, sibs: seq<PackedTransaction>, receipts: Receipts, threshold: nat,
                    cursor: int, next: PackedTransaction)
    requires AttemptsValid(a0) && next in a0 && next in sibs && next.id < cursor
    ensures Cursor(sibs, receipts, threshold) < cursor
  {
    var i :| 0 <= i < |a0| && a0[i] == next;
    assert next.id > 0;
  }

  /** A walk that ran out of attempts below the cursor met no final nonce below `top`. */
  lemma WalkExhausted(a0: seq<PackedTransaction>, nonce: int, receipts: Receipts, threshold: nat, cursor: int, top: int)
    requires AttemptsValid(a0) && NothingFinalBetween(a0, nonce, receipts, threshold, cursor, top)
    requires cursor <= 0 || Highest(a0, IdBelow(cursor)).None?
    ensures forall p :: p in a0 && p.id < top && p.nonce < nonce ==>
      !Finalizes(FirstVerdict(Siblings(a0, p.nonce), receipts, threshold), threshold)
  {
    forall p | p in a0 && p.id < top && p.nonce < nonce
      ensures !Finalizes(FirstVerdict(Siblings(a0, p.nonce), receipts, threshold), threshold)
    {
      var i :| 0 <= i < |a0| && a0[i] == p;
      assert p.id > 0;
      if cursor > 0 {
        assert !Matches(p, IdBelow(cursor));
      }
    }
  }

  /**
   * The attempt with the lowest id in `[lo, top)` whose nonce is below `nonce`, if
   * any: the last attempt the reconciliation walk checks when it runs out of attempts.
   */
  function LowestBelow(atts: seq<PackedTransaction>, nonce: int, lo: int, top: int): (r: Option<PackedTransaction>)
    ensures r.Some? ==> r.value in atts && lo <= r.value.id < top && r.value.nonce < nonce
    ensures r.Some? ==> forall p :: p in atts && lo <= p.id < top && p.nonce < nonce ==> r.value.id <= p.id
    ensures r.None? <==> forall p :: p in atts && lo <= p.id < top ==> p.nonce >= nonce
  {
    if atts == [] then None
    else
      var rest := LowestBelow(atts[1..], nonce, lo, top);
      var p := atts[0];
      assert forall x :: x in atts ==> x == p || x in atts[1..];
      if lo <= p.id < top && p.nonce < nonce && (rest.None? || p.id < rest.value.id) then Some(p) else rest
  }

  /** The nonce of `LowestBelow`, or `fallback` when there is no such attempt. */
  function LowestNonceOr(atts: seq<PackedTransaction>, nonce: int, lo: int, top: int, fallback: int): int
  {
    var l := LowestBelow(atts, nonce, lo, top);
    if l.Some? then l.value.nonce else fallback
  }

  /** Two ranges holding the same attempts below the nonce have the same lowest one. */
  lemma LowestSame(atts: seq<PackedTransaction>, nonce: int, lo1: int, lo2: int, top: int)
    requires AttemptsValid(atts)
    requires forall p :: p in atts && p.id < top && p.nonce < nonce ==> (lo1 <= p.id <==> lo2 <= p.id)
    ensures LowestBelow(atts, nonce, lo1, top) == LowestBelow(atts, nonce, lo2, top)
  {
    var a, b := LowestBelow(atts, nonce, lo1, top), LowestBelow(atts, nonce, lo2, top);
    if a.Some? {
      assert b.Some? by { assert !(a.value.nonce >= nonce); }
      IdsUnique(atts, a.value, b.value);
    }
  }

  /** Skipping an attempt at or above the ledger nonce leaves the lowest one below it in range unchanged. */
  lemma SkipKeepsLowest(atts: seq<PackedTransaction>, nonce: int, cursor: int, top: int, next: PackedTransaction)
    requires AttemptsValid(atts) && Highest(atts, IdBelow(cursor)) == Some(next) && next.nonce >= nonce
    ensures LowestBelow(atts, nonce, next.id, top) == LowestBelow(atts, nonce, cursor, top)
  {
    IdsDistinct(atts);
    forall p | p in atts && p.id < top && p.nonce < nonce
      ensures next.id <= p.id <==> cursor <= p.id
    {
      assert p.id < cursor ==> Matches(p, IdBelow(cursor));
    }
    LowestSame(atts, nonce, next.id, cursor, top);
  }

  /**
   * A visited nonce whose verdict does not finalize moves the cursor to its lowest
   * sibling, which is then the lowest attempt below the ledger nonce in range.
   */
  lemma PassSetsLowest(atts: seq<PackedTransaction>, nonce: int, receipts: Receipts, threshold: nat,
                       cursor: int, top: int, next: PackedTransaction)
    requires AttemptsValid(atts) && Highest(atts, IdBelow(cursor)) == Some(next) && next.nonce < nonce
    requires cursor <= top
    requires !Finalizes(FirstVerdict(Siblings(atts, next.nonce), receipts, threshold), threshold)
    ensures LowestNonceOr(atts, nonce, Cursor(Siblings(atts, next.nonce), receipts, threshold), top, 0) == next.nonce
    ensures LowestBelow(atts, nonce, Cursor(Siblings(atts, next.nonce), receipts, threshold), top).Some?
  {
    var sibs := Siblings(atts, next.nonce);
    var c := Cursor(sibs, receipts, threshold);
    WalkVisit(atts, receipts, threshold, cursor, next);
    var i :| 0 <= i < |sibs| && AttemptIds(sibs)[i] == c;
    var s := sibs[i];
    assert s in atts && s.nonce == next.nonce && s.id == c;
    var l := LowestBelow(atts, nonce, c, top);
    assert l.Some? by { assert !(s.nonce >= nonce); }
    IdsUnique(atts, l.value, s);
  }

  /**
   * A walk from `start` that ran out of attempts below the cursor has the same
   * lowest attempt in range as the whole table, so it ends where `WalkEnded` says.
   */
  lemma ExhaustedKeepsLowest(atts: seq<PackedTransaction>, nonce: int, receipts: Receipts, threshold: nat,
                             cursor: int, start: PackedTransaction, last: int)
    requires AttemptsValid(atts) && (cursor <= 0 || Highest(atts, IdBelow(cursor)).None?)
    requires last == LowestNonceOr(atts, nonce, cursor, start.id + 1, start.nonce)
    ensures WalkEnded(atts, nonce, receipts, threshold, start, last, false)
  {
    var top := start.id + 1;
    forall p | p in atts && p.id < top && p.nonce < nonce
      ensures cursor <= p.id <==> 0 <= p.id
    {
      var i :| 0 <= i < |atts| && atts[i] == p;
      assert p.id > 0;
      if cursor > 0 {
        assert !Matches(p, IdBelow(cursor));
      }
    }
    LowestSame(atts, nonce, cursor, 0, top);
  }

  /**
   * Where `checkPackedTransaction` starts its walk: the latest attempt at the nonce
   * just below the ledger's, else the latest attempt of all.
   */
  function WalkStart(atts: seq<PackedTransaction>, nonce: int): (r: Option<PackedTransaction>)
    ensures r.Some? <==> atts != []
    ensures r.Some? ==> r.value in atts
  {
    var below := Highest(atts, AtNonce(nonce - 1));
    if below.Some? then below else Highest(atts, AnyAttempt)
  }

  /**
   * Where the reconciliation walk from `start` ended: after running out of attempts,
   * at the nonce of the lowest-id attempt up to `start` below the ledger nonce (that
   * of `start` when there is none); after stopping, with a monotone history, above
   * every other final nonce up to `start`.
   */
  ghost predicate WalkEnded(atts: seq<PackedTransaction>, nonce: int, receipts: Receipts, threshold: nat,
                            start: PackedTransaction, last: int, stopped: bool)
  {
    && (!stopped ==> last == LowestNonceOr(atts, nonce, 0, start.id + 1, start.nonce))
    && (stopped && NoncesMonotone(atts) ==>
          forall p :: p in atts && p.id <= start.id && last < p.nonce < nonce ==>
            !Finalizes(FirstVerdict(Siblings(atts, p.nonce), receipts, threshold), threshold))
  }
}
