/**
 * What the batch selector (`getRepackRequests`, src/ParallelSigner.ts:310-415)
 * promises, stated over the store's tables and the ledger's receipts, and
 * facts about the store's `getRequests` selection that the repack rules rely on.
 */
module Selection {
  import opened Records
  import opened RequestStore

  /** Where the next batch starts: nothing this cycle, or the requests with id above `minimalId`. */
  datatype Floor = Wait | From(minimalId: int)

  /** The latest attempt still has room, and some request beyond its highest id has arrived. */
  ghost predicate NewDataArrived(latest: PackedTransaction, reqs: seq<Request>, limit: nat)
    requires |latest.requestIds| > 0
  {
    |latest.requestIds| < limit && exists r :: r in reqs && r.id.Some? && r.id.value > Max(latest.requestIds)
  }

  /** More than the chain's timeout has passed since the latest attempt was recorded (a missing time reads as 0). */
  predicate TimedOut(latest: PackedTransaction, now: int, timeoutMs: int)
  {
    now - latest.createdAt.GetOr(0) > timeoutMs
  }

  /** `floor` is 0, or the highest request id of an attempt below the ledger nonce that has landed. */
  ghost predicate FloorJustified(floor: int, atts: seq<PackedTransaction>, nonce: int, receipts: Receipts)
  {
    floor == 0 ||
    exists p :: p in atts && p.nonce < nonce && Landed(p, receipts) && |p.requestIds| > 0 && floor == Max(p.requestIds)
  }

  /**
   * A non-zero floor comes from the first attempt, in table order, with a receipt
   * among the siblings at its nonce: the scan at that nonce stops there.
   */
  ghost predicate FloorFromFirstLanded(floor: int, atts: seq<PackedTransaction>, nonce: int, receipts: Receipts)
  {
    floor == 0 ||
    exists p :: p in atts && p.nonce < nonce && |p.requestIds| > 0 && floor == Max(p.requestIds)
                && FirstLanded(p, Siblings(atts, p.nonce), receipts)
  }

  /** `p` is the first attempt of `sibs`, in table order, with a receipt. */
  ghost predicate FirstLanded(p: PackedTransaction, sibs: seq<PackedTransaction>, receipts: Receipts)
  {
    exists k :: 0 <= k < |sibs| && sibs[k] == p && Landed(p, receipts) && forall j :: 0 <= j < k ==> !Landed(sibs[j], receipts)
  }

  /** The ledger normally only moves forward: a later attempt never has a lower nonce. */
  ghost predicate NoncesMonotone(atts: seq<PackedTransaction>)
  {
    forall p, q :: p in atts && q in atts && p.id <= q.id ==> p.nonce <= q.nonce
  }

  /**
   * The backward walk finds the newest landed nonce: a floor of 0 means no attempt
   * below the ledger nonce has landed; any other floor comes from a landed attempt
   * above which, below the ledger nonce, nothing has landed.
   */
  ghost predicate FloorIsNewestLanded(floor: int, atts: seq<PackedTransaction>, nonce: int, receipts: Receipts)
  {
    && (floor == 0 ==> forall p :: p in atts && p.nonce < nonce ==> !Landed(p, receipts))
    && (floor != 0 ==>
          exists p :: p in atts && p.nonce < nonce && Landed(p, receipts) && |p.requestIds| > 0
                      && floor == Max(p.requestIds)
                      && forall q :: q in atts && p.nonce < q.nonce < nonce ==> !Landed(q, receipts))
  }

  /** The attempt carries exactly the first `|requestIds|` requests from its lowest id on. */
  ghost predicate Contiguous(p: PackedTransaction, reqs: seq<Request>)
  {
    |p.requestIds| > 0 &&
    p.requestIds == Ids(RequestsFrom(reqs, Min(p.requestIds), |p.requestIds|))
  }

  /** A smaller limit selects a prefix of what a larger one selects. */
  lemma {:induction false} RequestsFromPrefix(reqs: seq<Request>, minimalId: int, k: nat, l: nat)
    requires k <= l
    ensures RequestsFrom(reqs, minimalId, k) <= RequestsFrom(reqs, minimalId, l)
    ensures |RequestsFrom(reqs, minimalId, k)| < k ==> RequestsFrom(reqs, minimalId, k) == RequestsFrom(reqs, minimalId, l)
  {
    if k != 0 && reqs != [] {
      var tail := reqs[1..];
      if Qualifies(reqs[0], minimalId) {
        RequestsFromPrefix(tail, minimalId, k - 1, l - 1);
        var a, b := RequestsFrom(tail, minimalId, k - 1), RequestsFrom(tail, minimalId, l - 1);
        ConsPrefix(reqs[0], a, b);
      } else {
        RequestsFromPrefix(tail, minimalId, k, l);
      }
    }
  }

  /** Prefixes survive putting the same element in front. */
  lemma ConsPrefix<T>(x: T, a: seq<T>, b: seq<T>)
    requires a <= b
    ensures [x] + a <= [x] + b
    ensures a == b ==> [x] + a == [x] + b
  {
    assert ([x] + b)[..|[x] + a|] == [x] + b[..|a|];
  }

  /** `Ids` of a prefix is a prefix of the `Ids`. */
  lemma IdsPrefix(a: seq<Request>, b: seq<Request>)
    requires a <= b
    ensures Ids(a) <= Ids(b)
  {
    assert forall i :: 0 <= i < |a| ==> a[i] == b[i];
  }

  /**
   * Repacking at `min(requestIds) - 1` re-selects the previous attempt's requests
   * first, in their original order, followed by any newcomers.
   */
  lemma RepackCarriesPrevious(reqs: seq<Request>, p: PackedTransaction, limit: nat)
    requires Contiguous(p, reqs) && |p.requestIds| <= limit
    ensures p.requestIds <= Ids(RequestsFrom(reqs, Min(p.requestIds), limit))
  {
    RequestsFromPrefix(reqs, Min(p.requestIds), |p.requestIds|, limit);
    IdsPrefix(RequestsFrom(reqs, Min(p.requestIds), |p.requestIds|), RequestsFrom(reqs, Min(p.requestIds), limit));
  }

  /**
   * A repack with no new data (a timeout repack) re-selects exactly the previous
   * attempt's requests: a pure fee bump.
   */
  lemma FeeBumpKeepsSet(reqs: seq<Request>, p: PackedTransaction, limit: nat)
    requires RequestsValid(reqs)
    requires Contiguous(p, reqs) && |p.requestIds| <= limit
    requires !NewDataArrived(p, reqs, limit)
    ensures Ids(RequestsFrom(reqs, Min(p.requestIds), limit)) == p.requestIds
  {
    var ids := p.requestIds;
    var small := RequestsFrom(reqs, Min(ids), |ids|);
    var big := RequestsFrom(reqs, Min(ids), limit);
    RequestsFromPrefix(reqs, Min(ids), |ids|, limit);
    IdsPrefix(small, big);
    if |ids| < limit {
      // no request lies above the attempt's highest id, so the selection cannot run past it
      RequestsFromValid(reqs, Min(ids), limit);
      forall r | r in big ensures r.id.GetOr(0) <= Max(ids) {
        assert r in reqs && r.id.Some?;
      }
      SelectionStopsAtMax(big, ids, Max(ids));
    }
  }

  /**
   * A selection with increasing ids whose `Ids` start with `ids` and that holds
   * nothing above a bound reached inside `ids` ends where `ids` ends.
   */
  lemma SelectionStopsAtMax(big: seq<Request>, ids: seq<int>, bound: int)
    requires RequestsValid(big)
    requires ids <= Ids(big) && bound in ids
    requires forall r :: r in big ==> r.id.GetOr(0) <= bound
    ensures |big| <= |ids|
  {
    var k :| 0 <= k < |ids| && ids[k] == bound;
    assert Ids(big)[k] == bound;
    assert big[|big| - 1] in big;
  }

  // ---------------------------------------------------------------- the backward walk

  /** No attempt with id at least `cursor` and a nonce below the ledger's has landed. */
  ghost predicate NoLandingFrom(atts: seq<PackedTransaction>, nonce: int, receipts: Receipts, cursor: int)
  {
    forall q :: q in atts && q.id >= cursor && q.nonce < nonce ==> !Landed(q, receipts)
  }

  /** Skipping an attempt at or above the ledger nonce keeps the walk's invariant. */
  lemma SkipKeepsNoLanding(atts: seq<PackedTransaction>, nonce: int, receipts: Receipts, cursor: int, next: PackedTransaction)
    requires NoncesMonotone(atts) && NoLandingFrom(atts, nonce, receipts, cursor)
    requires Highest(atts, IdBelow(cursor)) == Some(next) && next.nonce >= nonce
    ensures NoLandingFrom(atts, nonce, receipts, next.id)
  {
    // whatever lies from `next` up sits at or above the ledger nonce
    assert next in atts;
  }

  /**
   * Scanning every sibling at `next`'s nonce without finding a receipt, and moving
   * the cursor to one of their ids (or keeping it), keeps the walk's invariant.
   */
  lemma ScanKeepsNoLanding(atts: seq<PackedTransaction>, nonce: int, receipts: Receipts, cursor: int,
                           next: PackedTransaction, cursor': int)
    requires NoncesMonotone(atts) && NoLandingFrom(atts, nonce, receipts, cursor)
    requires Highest(atts, IdBelow(cursor)) == Some(next) && next.nonce < nonce
    requires forall p :: p in atts && p.nonce == next.nonce ==> !Landed(p, receipts)
    requires cursor' == cursor || exists s :: s in atts && s.nonce == next.nonce && s.id == cursor'
    ensures NoLandingFrom(atts, nonce, receipts, cursor')
  {
    forall q | q in atts && q.id >= cursor' && q.nonce < nonce ensures !Landed(q, receipts) {
      if q.id < cursor {
        var s :| s in atts && s.nonce == next.nonce && s.id == cursor';
        assert next in atts && q.id <= next.id;
        assert s.nonce <= q.nonce <= next.nonce;
      }
    }
  }

  /**
   * A receipt found among the siblings at `next`'s nonce, with the invariant at the
   * cursor that led to `next`, is the newest landing below the ledger nonce.
   */
  lemma FoundIsNewest(atts: seq<PackedTransaction>, nonce: int, receipts: Receipts, cursor: int,
                      next: PackedTransaction, p: PackedTransaction)
    requires NoncesMonotone(atts) && NoLandingFrom(atts, nonce, receipts, cursor)
    requires Highest(atts, IdBelow(cursor)) == Some(next) && next.nonce < nonce
    requires p in atts && p.nonce == next.nonce && Landed(p, receipts) && |p.requestIds| > 0 && Max(p.requestIds) != 0
    ensures FloorIsNewestLanded(Max(p.requestIds), atts, nonce, receipts)
  {
    // below the cursor nothing lies above `next`'s nonce
    assert next in atts;
    assert forall q :: q in atts && q.id < cursor ==> q.nonce <= next.nonce;
  }

  /** A walk that runs out of attempts below the cursor found no landing at all. */
  lemma ExhaustedMeansNone(atts: seq<PackedTransaction>, nonce: int, receipts: Receipts, cursor: int)
    requires NoLandingFrom(atts, nonce, receipts, cursor)
    requires Highest(atts, IdBelow(cursor)).None?
    ensures FloorIsNewestLanded(0, atts, nonce, receipts)
  {
    assert forall q :: q in atts ==> q.id >= cursor by {
      forall q | q in atts ensures q.id >= cursor {
        assert !Matches(q, IdBelow(cursor));
      }
    }
  }

  /** Sibling rows are rows of a valid table, so their ids are positive. */
  lemma SiblingIdsPositive(atts: seq<PackedTransaction>, nonce: int)
    requires AttemptsValid(atts)
    ensures forall j :: 0 <= j < |Siblings(atts, nonce)| ==> Siblings(atts, nonce)[j].id > 0
  {
    var sibs := Siblings(atts, nonce);
    forall j | 0 <= j < |sibs| ensures sibs[j].id > 0 {
      assert sibs[j] in atts;
    }
  }

  /** A landed sibling at `next`'s nonce gives the walk's floor, justified and, for a monotone history, the newest. */
  lemma FoundFloor(atts: seq<PackedTransaction>, nonce: int, receipts: Receipts, cursor: int,
                   next: PackedTransaction, p: PackedTransaction)
    requires AttemptsValid(atts) && (NoncesMonotone(atts) ==> NoLandingFrom(atts, nonce, receipts, cursor))
    requires Highest(atts, IdBelow(cursor)) == Some(next) && next.nonce < nonce
    requires p in Siblings(atts, next.nonce) && FirstLanded(p, Siblings(atts, next.nonce), receipts)
    ensures |p.requestIds| > 0
    ensures FloorJustified(Max(p.requestIds), atts, nonce, receipts)
    ensures FloorFromFirstLanded(Max(p.requestIds), atts, nonce, receipts)
    ensures NoncesMonotone(atts) ==> FloorIsNewestLanded(Max(p.requestIds), atts, nonce, receipts)
  {
    assert p in atts;
    var i :| 0 <= i < |atts| && atts[i] == p;
    assert Max(p.requestIds) in p.requestIds;
    if NoncesMonotone(atts) {
      FoundIsNewest(atts, nonce, receipts, cursor, next, p);
    }
  }

  /**
   * A scan of every sibling at `next`'s nonce that found no receipt lowers the
   * cursor strictly below where it was and keeps the walk's invariant.
   */
  lemma ScanFloor(atts: seq<PackedTransaction>, nonce: int, receipts: Receipts, cursor: int,
                  next: PackedTransaction, cursor': int)
    requires NoncesMonotone(atts) ==> NoLandingFrom(atts, nonce, receipts, cursor)
    requires Highest(atts, IdBelow(cursor)) == Some(next) && next.nonce < nonce
    requires forall p :: p in Siblings(atts, next.nonce) ==> !Landed(p, receipts)
    requires (forall p :: p in Siblings(atts, next.nonce) ==> cursor' <= p.id)
    requires cursor' == cursor || exists p :: p in Siblings(atts, next.nonce) && p.id == cursor'
    ensures cursor' < cursor
    ensures NoncesMonotone(atts) ==> NoLandingFrom(atts, nonce, receipts, cursor')
  {
    assert next in Siblings(atts, next.nonce);
    if NoncesMonotone(atts) {
      ScanKeepsNoLanding(atts, nonce, receipts, cursor, next, cursor');
    }
  }

  // ---------------------------------------------------------------- contiguity of a new attempt

  /** Thresholds that admit the same requests select the same requests. */
  lemma {:induction false} SameSelection(reqs: seq<Request>, m: int, x: int, limit: nat)
    requires forall r :: r in reqs ==> (Qualifies(r, m) <==> Qualifies(r, x))
    ensures RequestsFrom(reqs, m, limit) == RequestsFrom(reqs, x, limit)
  {
    if limit > 0 && reqs != [] {
      assert reqs[0] in reqs;
      assert forall r :: r in reqs[1..] ==> r in reqs;
      if Qualifies(reqs[0], m) {
        SameSelection(reqs[1..], m, x, limit - 1);
      } else {
        SameSelection(reqs[1..], m, x, limit);
      }
    }
  }

  /** Selecting from the first selected id on gives the same selection. */
  lemma {:induction false} StartAtFirst(reqs: seq<Request>, m: int, limit: nat)
    requires RequestsValid(reqs) && |RequestsFrom(reqs, m, limit)| > 0
    ensures RequestsFrom(reqs, m, limit) == RequestsFrom(reqs, RequestsFrom(reqs, m, limit)[0].id.GetOr(0), limit)
  {
    var b := RequestsFrom(reqs, m, limit);
    var x := b[0].id.GetOr(0);
    HeadBelowTail(reqs);
    var tail := reqs[1..];
    if Qualifies(reqs[0], m) {
      var rest := RequestsFrom(tail, m, limit - 1);
      assert b == [reqs[0]] + rest;
      assert x == reqs[0].id.value;
      SameSelection(tail, m, x, limit - 1);
      assert RequestsFrom(reqs, x, limit) == [reqs[0]] + RequestsFrom(tail, x, limit - 1);
    } else {
      assert b == RequestsFrom(tail, m, limit);
      StartAtFirst(tail, m, limit);
      assert b[0] in tail;
      assert RequestsFrom(reqs, x, limit) == RequestsFrom(tail, x, limit);
    }
  }

  /** In a list with increasing ids the lowest id is the first. */
  lemma MinIsFirst(rs: seq<Request>)
    requires RequestsValid(rs) && |rs| > 0
    ensures Min(Ids(rs)) == rs[0].id.value
  {
    var ids := Ids(rs);
    assert ids[0] in ids;
    var i :| 0 <= i < |ids| && ids[i] == Min(ids);
    assert i == 0 || ids[0] < ids[i];
  }

  /**
   * An attempt recorded from a fresh selection is contiguous: it carries exactly
   * the first `|ids|` requests from its lowest id on, so the repack lemmas apply to it.
   */
  lemma NewBatchContiguous(reqs: seq<Request>, m: int, limit: nat)
    requires RequestsValid(reqs) && |RequestsFrom(reqs, m, limit)| > 0
    ensures var ids := Ids(RequestsFrom(reqs, m, limit));
            ids == Ids(RequestsFrom(reqs, Min(ids), |ids|))
  {
    var b := RequestsFrom(reqs, m, limit);
    RequestsFromValid(reqs, m, limit);
    MinIsFirst(b);
    var x := b[0].id.GetOr(0);
    StartAtFirst(reqs, m, limit);
    RequestsFromPrefix(reqs, x, |b|, limit);
    assert RequestsFrom(reqs, x, |b|) == b;
  }

  // ---------------------------------------------------------------- contiguity across later writes

  /** Every attempt of the table is contiguous in the requests table. */
  ghost predicate AllContiguous(atts: seq<PackedTransaction>, reqs: seq<Request>)
  {
    forall p :: p in atts ==> Contiguous(p, reqs)
  }

  /** Every attempt carries at most `limit` requests. */
  ghost predicate AttemptsWithin(atts: seq<PackedTransaction>, limit: nat)
  {
    forall p :: p in atts ==> |p.requestIds| <= limit
  }

  /** A selection that already reached its limit is not changed by rows appended behind it. */
  lemma {:induction false} SelectionAppend(reqs: seq<Request>, more: seq<Request>, m: int, k: nat)
    requires |RequestsFrom(reqs, m, k)| == k
    ensures RequestsFrom(reqs + more, m, k) == RequestsFrom(reqs, m, k)
  {
    if k != 0 {
      assert reqs != [];
      assert (reqs + more)[0] == reqs[0] && (reqs + more)[1..] == reqs[1..] + more;
      if Qualifies(reqs[0], m) {
        SelectionAppend(reqs[1..], more, m, k - 1);
      } else {
        SelectionAppend(reqs[1..], more, m, k);
      }
    }
  }

  /** Two tables with the same id in every row select rows with the same ids. */
  lemma {:induction false} SelectionSameIds(a: seq<Request>, b: seq<Request>, m: int, k: nat)
    requires |a| == |b| && forall i :: 0 <= i < |a| ==> a[i].id == b[i].id
    ensures Ids(RequestsFrom(a, m, k)) == Ids(RequestsFrom(b, m, k))
  {
    if k != 0 && a != [] {
      var a', b' := a[1..], b[1..];
      forall i | 0 <= i < |a'| ensures a'[i].id == b'[i].id {
        assert a'[i] == a[i + 1] && b'[i] == b[i + 1];
      }
      var q := Qualifies(a[0], m);
      assert Qualifies(b[0], m) == q by {
        assert a[0].id == b[0].id;
      }
      var k' := if q then k - 1 else k;
      SelectionSameIds(a', b', m, k');
      var sa, sb := RequestsFrom(a', m, k'), RequestsFrom(b', m, k');
      assert RequestsFrom(a, m, k) == if q then [a[0]] + sa else sa;
      assert RequestsFrom(b, m, k) == if q then [b[0]] + sb else sb;
      if q {
        IdsCons(a[0], sa);
        IdsCons(b[0], sb);
      }
    }
  }

  /** `Ids` of a row in front of a list. */
  lemma IdsCons(x: Request, rest: seq<Request>)
    ensures Ids([x] + rest) == [x.id.GetOr(0)] + Ids(rest)
  {
    assert ([x] + rest)[1..] == rest;
  }

  /** `setRequests` appends rows behind the table, which keeps every attempt contiguous. */
  lemma AppendKeepsContiguous(atts: seq<PackedTransaction>, reqs: seq<Request>, more: seq<Request>)
    requires AllContiguous(atts, reqs)
    ensures AllContiguous(atts, reqs + more)
  {
    forall p | p in atts ensures Contiguous(p, reqs + more) {
      assert Contiguous(p, reqs);
      SelectionAppend(reqs, more, Min(p.requestIds), |p.requestIds|);
    }
  }

  /**
   * Rewriting the requests table without touching its ids (`updateRequestBatch`) and
   * the attempts table without touching any attempt's request ids keeps every
   * attempt contiguous.
   */
  lemma SameIdsKeepContiguous(a0: seq<PackedTransaction>, r0: seq<Request>, a1: seq<PackedTransaction>, r1: seq<Request>)
    requires AllContiguous(a0, r0)
    requires |r1| == |r0| && forall i :: 0 <= i < |r0| ==> r1[i].id == r0[i].id
    requires |a1| == |a0| && forall i :: 0 <= i < |a0| ==> a1[i].requestIds == a0[i].requestIds
    ensures AllContiguous(a1, r1)
  {
    forall p | p in a1 ensures Contiguous(p, r1) {
      var i :| 0 <= i < |a1| && a1[i] == p;
      assert a0[i] in a0 && Contiguous(a0[i], r0);
      SelectionSameIds(r0, r1, Min(p.requestIds), |p.requestIds|);
    }
  }
}
