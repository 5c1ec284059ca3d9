/**
 * The expiry sweep of internal/apps/redenvelope/tasks.go: take a snapshot of
 * the Active envelopes that are past their expiry time and still hold money,
 * then, one transaction per envelope, expire it and refund its snapshot
 * amount to its creator.  A failing transaction rolls back only its own
 * envelope and the sweep goes on; which transactions fail is a parameter.
 */
module Sweeper {
  import opened Ledger
  import opened Lifecycle

  /** The sweep's query: Active, expired before `now`, and with money left. */
  predicate Selected(e: Envelope, now: int): (b: bool)
    // a well-formed selected envelope still waits for claimants
    ensures b && WellFormed(e) ==> e.remainingCount >= 1
  {
    e.status == Active && e.expiresAt < now && e.remaining > 0
  }

  /** The codes of the envelopes the sweep's query returns. */
  function Selection(envelopes: map<string, Envelope>, now: int): set<string>
  {
    set k | k in envelopes && Selected(envelopes[k], now)
  }

  /** The envelopes after the envelopes under the codes `ks` are expired. */
  function ExpireAll(envelopes: map<string, Envelope>, ks: set<string>): map<string, Envelope>
  {
    map k | k in envelopes :: if k in ks then Expire(envelopes[k]) else envelopes[k]
  }

  /** The refund journal entry for a snapshot: from the creator to the creator. */
  function RefundOrder(snap: Envelope, now: int): Order
  {
    Order(OrderName(RefundName, snap.greeting), snap.creator, snap.creator, snap.remaining, RedEnvelopeRefund, now)
  }

  function RefundOrders(done: seq<Envelope>, now: int): (orders: seq<Order>)
    ensures |orders| == |done|
  {
    if done == [] then [] else RefundOrders(done[..|done| - 1], now) + [RefundOrder(done[|done| - 1], now)]
  }

  /** The balances after each refunded snapshot credited its creator, in order. */
  function CreditAll(balances: map<UserId, int>, done: seq<Envelope>): map<UserId, int>
  {
    if done == [] then balances
    else
      var last := done[|done| - 1];
      Credit(CreditAll(balances, done[..|done| - 1]), last.creator, last.remaining)
  }

  /** The cents of the snapshots in `done` created by `user`. */
  function RefundedTo(done: seq<Envelope>, user: UserId): int
  {
    if done == [] then 0
    else
      var last := done[|done| - 1];
      RefundedTo(done[..|done| - 1], user) + (if last.creator == user then last.remaining else 0)
  }

  /** The cents of all snapshots in `done`. */
  function Refunded(done: seq<Envelope>): int
  {
    if done == [] then 0 else Refunded(done[..|done| - 1]) + done[|done| - 1].remaining
  }

  function JournalTotal(orders: seq<Order>): int
  {
    if orders == [] then 0 else JournalTotal(orders[..|orders| - 1]) + orders[|orders| - 1].amount
  }

  /** The codes of a sequence of snapshots. */
  function Codes(done: seq<Envelope>): set<string>
  {
    set i | 0 <= i < |done| :: done[i].code
  }

  /**
   * Each creator with a balance row gains exactly the snapshot amounts of
   * their refunded envelopes; nobody else gains anything and no balance row
   * appears.
   */
  lemma {:induction false} CreditAllBalances(balances: map<UserId, int>, done: seq<Envelope>, user: UserId)
    ensures CreditAll(balances, done).Keys == balances.Keys
    ensures user in balances ==> CreditAll(balances, done)[user] == balances[user] + RefundedTo(done, user)
  {
    if done != [] {
      CreditAllBalances(balances, done[..|done| - 1], user);
    }
  }

  /** The refund entries of a sweep add up to the snapshot amounts refunded. */
  lemma {:induction false} RefundOrdersTotal(done: seq<Envelope>, now: int)
    ensures JournalTotal(RefundOrders(done, now)) == Refunded(done)
  {
    if done != [] {
      var front := done[..|done| - 1];
      RefundOrdersTotal(front, now);
      var orders := RefundOrders(done, now);
      assert orders[..|orders| - 1] == RefundOrders(front, now);
    }
  }

  /** Every refund entry goes from a snapshot's creator to that creator, for its amount. */
  lemma {:induction false} RefundOrdersEntries(done: seq<Envelope>, now: int, i: nat)
    requires i < |done|
    ensures var o := RefundOrders(done, now)[i];
      o.payer == done[i].creator && o.payee == done[i].creator &&
      o.amount == done[i].remaining && o.kind == RedEnvelopeRefund
  {
    if i < |done| - 1 {
      RefundOrdersEntries(done[..|done| - 1], now, i);
    }
  }

  /**
   * Expiring selected envelopes takes exactly them out of the selection:
   * what the sweep expired is never selected again.
   */
  lemma SelectionAfterExpire(envelopes: map<string, Envelope>, ks: set<string>, now: int)
    requires ks <= Selection(envelopes, now)
    ensures Selection(ExpireAll(envelopes, ks), now) == Selection(envelopes, now) - ks
  {
    var after := ExpireAll(envelopes, ks);
    forall k | k in Selection(after, now)
      ensures k in Selection(envelopes, now) - ks
    {
      assert k in envelopes && Selected(after[k], now);
    }
  }

  lemma ExpireAllAdd(envelopes: map<string, Envelope>, ks: set<string>, k: string)
    requires k in envelopes
    ensures ExpireAll(envelopes, ks)[k := Expire(envelopes[k])] == ExpireAll(envelopes, ks + {k})
  {
  }

  lemma SetStep(processed: set<string>, failing: set<string>, k: string)
    requires k !in failing
    ensures processed - failing + {k} == processed + {k} - failing
  {
  }

  /** What a sweep leaves selected is the failing part of its selection. */
  lemma FailingLeft(selected: set<string>, failing: set<string>)
    ensures selected - (selected - failing) == selected * failing
  {
  }

  /** Taking `k` out of `pending` adds it to the processed part; a failing `k` adds nothing to what was swept. */
  lemma PickStep(selected: set<string>, pending: set<string>, failing: set<string>, k: string)
    requires k in pending && pending <= selected
    ensures selected - (pending - {k}) == (selected - pending) + {k}
    ensures k in failing ==> (selected - pending) + {k} - failing == (selected - pending) - failing
  {
  }

  lemma SweepStep(done: seq<Envelope>, x: Envelope, balances: map<UserId, int>, now: int)
    ensures Codes(done + [x]) == Codes(done) + {x.code}
    ensures RefundOrders(done + [x], now) == RefundOrders(done, now) + [RefundOrder(x, now)]
    ensures CreditAll(balances, done + [x]) == Credit(CreditAll(balances, done), x.creator, x.remaining)
  {
    assert (done + [x])[..|done|] == done;
    var c := Codes(done + [x]);
    forall y | y in c ensures y in Codes(done) + {x.code} {
      var i :| 0 <= i < |done| + 1 && (done + [x])[i].code == y;
      if i < |done| {
        assert done[i].code == y;
      }
    }
    forall y | y in Codes(done) + {x.code} ensures y in c {
      if y in Codes(done) {
        var i :| 0 <= i < |done| && done[i].code == y;
        assert (done + [x])[i].code == y;
      } else {
        assert (done + [x])[|done|].code == y;
      }
    }
  }

  /** Snapshots with distinct codes are as many as their codes. */
  lemma {:induction false} DistinctCodesCount(done: seq<Envelope>)
    requires forall i, j | 0 <= i < j < |done| :: done[i].code != done[j].code
    ensures |Codes(done)| == |done|
  {
    if done != [] {
      var init := done[..|done| - 1];
      var x := done[|done| - 1];
      assert init + [x] == done;
      SweepStep(init, x, map[], 0);
      DistinctCodesCount(init);
    }
  }

  /** The bookkeeping of one successful item of the sweep. */
  lemma SweepBookkeeping(envelopes0: map<string, Envelope>, balances0: map<UserId, int>, journal0: seq<Order>,
                         selected: set<string>,
                         processed: set<string>, failing: set<string>, k: string, done: seq<Envelope>, now: int)
    requires selected <= envelopes0.Keys && k in selected && k !in processed && k !in failing
    requires forall key | key in selected :: envelopes0[key].code == key
    requires Codes(done) == processed - failing
    requires forall i, j | 0 <= i < j < |done| :: done[i].code != done[j].code
    requires forall i | 0 <= i < |done| :: done[i].code in selected && done[i] == envelopes0[done[i].code]
    ensures var done' := done + [envelopes0[k]];
      && ExpireAll(envelopes0, processed - failing)[k := Expire(envelopes0[k])] == ExpireAll(envelopes0, processed + {k} - failing)
      && Codes(done') == processed + {k} - failing
      && (forall i, j | 0 <= i < j < |done'| :: done'[i].code != done'[j].code)
      && (forall i | 0 <= i < |done'| :: done'[i].code in selected && done'[i] == envelopes0[done'[i].code])
      && CreditAll(balances0, done') == Credit(CreditAll(balances0, done), envelopes0[k].creator, envelopes0[k].remaining)
      && journal0 + RefundOrders(done', now) == journal0 + RefundOrders(done, now) + [RefundOrder(envelopes0[k], now)]
  {
    var x := envelopes0[k];
    var done' := done + [x];
    ExpireAllAdd(envelopes0, processed - failing, k);
    SetStep(processed, failing, k);
    SweepStep(done, x, balances0, now);
    assert journal0 + (RefundOrders(done, now) + [RefundOrder(x, now)]) ==
           journal0 + RefundOrders(done, now) + [RefundOrder(x, now)];
    forall i | 0 <= i < |done'|
      ensures done'[i].code in selected && done'[i] == envelopes0[done'[i].code]
    {
      if i < |done| {
        assert done'[i] == done[i];
      }
    }
    forall i, j | 0 <= i < j < |done'|
      ensures done'[i].code != done'[j].code
    {
      if j == |done| {
        assert done[i].code in Codes(done);
      } else {
        assert done'[i] == done[i] && done'[j] == done[j];
      }
    }
  }

  /**
   * One item of the sweep, for the snapshot `snap` of an envelope: expire the
   * stored envelope if it is still Active, then, whether or not that update
   * matched, credit the creator with the snapshot's amount and record the
   * refund.  (The update is by id; an envelope is stored under its code, so
   * the row with the snapshot's id is the one under the snapshot's code.)
   */
  method RefundOne(store: Store, snap: Envelope, now: int)
    requires store.Valid()
    modifies store
    ensures store.Valid()
    ensures var matched := snap.code in old(store.envelopes) && old(store.envelopes)[snap.code].id == snap.id &&
                           old(store.envelopes)[snap.code].status == Active;
      store.envelopes == if matched then old(store.envelopes)[snap.code := Expire(old(store.envelopes)[snap.code])]
                         else old(store.envelopes)
    ensures snap.remaining > 0 ==>
      && store.balances == Credit(old(store.balances), snap.creator, snap.remaining)
      && store.journal == old(store.journal) + [RefundOrder(snap, now)]
    ensures snap.remaining <= 0 ==> store.balances == old(store.balances) && store.journal == old(store.journal)
    ensures store.claims == old(store.claims) && store.nextId == old(store.nextId)
  {
    var k := snap.code;
    if k in store.envelopes && store.envelopes[k].id == snap.id && store.envelopes[k].status == Active {
      ExpireKeepsConsistent(store.envelopes, store.claims, store.nextId, k);
      store.envelopes := store.envelopes[k := Expire(store.envelopes[k])];
    }
    if snap.remaining > 0 {
      store.balances := Credit(store.balances, snap.creator, snap.remaining);
      store.journal := store.journal + [RefundOrder(snap, now)];
    }
  }

  /**
   * refundExpiredRedEnvelopes: expire and refund every selected envelope
   * whose transaction does not fail (`failing` holds the codes of those that
   * do).  `done` lists the refunded snapshots in the order they were
   * processed.
   */
  method RefundExpired(store: Store, now: int, failing: set<string>) returns (ghost done: seq<Envelope>)
    requires store.Valid()
    modifies store
    ensures store.Valid()
    ensures var selected := Selection(old(store.envelopes), now);
      && Codes(done) == selected - failing
      && |done| == |selected - failing|
      && (forall i, j | 0 <= i < j < |done| :: done[i].code != done[j].code)
      && (forall i | 0 <= i < |done| :: done[i].code in old(store.envelopes) && done[i] == old(store.envelopes)[done[i].code])
      && store.envelopes == ExpireAll(old(store.envelopes), selected - failing)
      && store.balances == CreditAll(old(store.balances), done)
      && store.journal == old(store.journal) + RefundOrders(done, now)
      && store.claims == old(store.claims)
      && store.nextId == old(store.nextId)
    ensures Selection(old(store.envelopes), now) == {} ==> unchanged(store)
    ensures Selection(store.envelopes, now) == Selection(old(store.envelopes), now) * failing
    // every refunded envelope is fully resolved: its claims plus its refund
    // are what it was created with, in cents and in claimants
    ensures forall i | 0 <= i < |done| ::
      && ClaimedSum(store.claims, done[i].id) + done[i].remaining == done[i].total
      && ClaimCount(store.claims, done[i].id) + done[i].remainingCount == done[i].totalCount
  {
    var selected := Selection(store.envelopes, now);
    done := [];
    if selected == {} {
      // nothing to refund
      assert ExpireAll(store.envelopes, selected - failing) == store.envelopes;
      return;
    }
    done := RefundEach(store, selected, now, failing);
    DistinctCodesCount(done);
    SelectionAfterExpire(old(store.envelopes), selected - failing, now);
    FailingLeft(selected, failing);
    forall i | 0 <= i < |done|
      ensures ClaimedSum(store.claims, done[i].id) + done[i].remaining == done[i].total
      ensures ClaimCount(store.claims, done[i].id) + done[i].remainingCount == done[i].totalCount
    {
      var k := done[i].code;
      assert k in Codes(done);
      assert Accounted(old(store.envelopes)[k], old(store.claims));
    }
  }

  /** The sweep's progress: the items in `swept` are expired and credited, in the order of `done`. */
  ghost predicate SweptSoFar(store: Store, snapshot: map<string, Envelope>, balances0: map<UserId, int>, journal0: seq<Order>,
                             selected: set<string>, swept: set<string>, done: seq<Envelope>, now: int)
    reads store
  {
    && selected <= snapshot.Keys
    && store.envelopes == ExpireAll(snapshot, swept)
    && Codes(done) == swept
    && (forall i, j | 0 <= i < j < |done| :: done[i].code != done[j].code)
    && (forall i | 0 <= i < |done| :: done[i].code in selected && done[i] == snapshot[done[i].code])
    && store.balances == CreditAll(balances0, done)
    && store.journal == journal0 + RefundOrders(done, now)
  }

  /** One successful iteration of the sweep: envelope `k` is refunded and appended to `done`. */
  method RefundItem(store: Store, snapshot: map<string, Envelope>, ghost balances0: map<UserId, int>,
                    ghost journal0: seq<Order>, ghost selected: set<string>, ghost processed: set<string>,
                    failing: set<string>, k: string, ghost done: seq<Envelope>, now: int)
    returns (ghost done': seq<Envelope>)
    requires store.Valid()
    requires selected <= snapshot.Keys && k in selected && k !in processed && k !in failing
    requires forall key | key in selected :: snapshot[key].code == key && Selected(snapshot[key], now)
    requires SweptSoFar(store, snapshot, balances0, journal0, selected, processed - failing, done, now)
    modifies store
    ensures store.Valid()
    ensures done' == done + [snapshot[k]]
    ensures SweptSoFar(store, snapshot, balances0, journal0, selected, processed + {k} - failing, done', now)
    ensures store.claims == old(store.claims) && store.nextId == old(store.nextId)
  {
    // no earlier item touched k, so the snapshot is still what is stored
    assert store.envelopes[k] == snapshot[k];
    SweepBookkeeping(snapshot, balances0, journal0, selected, processed, failing, k, done, now);
    ghost var journal1 := store.journal;
    RefundOne(store, snapshot[k], now);
    assert store.journal == journal1 + [RefundOrder(snapshot[k], now)];
    done' := done + [snapshot[k]];
  }

  /**
   * The loop of the sweep over the snapshot of the selected envelopes: one
   * transaction per envelope, in an order the query leaves open.
   */
  method RefundEach(store: Store, selected: set<string>, now: int, failing: set<string>) returns (ghost done: seq<Envelope>)
    requires store.Valid()
    requires forall k | k in selected :: k in store.envelopes && Selected(store.envelopes[k], now)
    modifies store
    ensures store.Valid()
    ensures Codes(done) == selected - failing
    ensures forall i, j | 0 <= i < j < |done| :: done[i].code != done[j].code
    ensures forall i | 0 <= i < |done| :: done[i].code in old(store.envelopes) && done[i] == old(store.envelopes)[done[i].code]
    ensures store.envelopes == ExpireAll(old(store.envelopes), selected - failing)
    ensures store.balances == CreditAll(old(store.balances), done)
    ensures store.journal == old(store.journal) + RefundOrders(done, now)
    ensures store.claims == old(store.claims) && store.nextId == old(store.nextId)
  {
    var snapshot := store.envelopes;
    assert forall k | k in selected :: k in snapshot && Selected(snapshot[k], now) && snapshot[k].code == k;
    done := [];
    var pending := selected;
    assert ExpireAll(snapshot, {}) == snapshot;
    while pending != {}
      invariant pending <= selected
      invariant store.Valid()
      invariant SweptSoFar(store, snapshot, old(store.balances), old(store.journal), selected, selected - pending - failing, done, now)
      invariant store.claims == old(store.claims) && store.nextId == old(store.nextId)
      decreases pending
    {
      var k :| k in pending;
      ghost var processed := selected - pending;
      PickStep(selected, pending, failing, k);
      pending := pending - {k};
      if k !in failing {
        done := RefundItem(store, snapshot, old(store.balances), old(store.journal), selected, processed, failing, k, done, now);
      } else {
        // a failing item's transaction rolls back; the sweep goes on
      }
    }
  }

  /**
   * A second sweep at the same time after one in which no item failed finds
   * nothing to do and changes nothing.
   */
  method SweepTwice(store: Store, now: int) returns (ghost first: seq<Envelope>, ghost second: seq<Envelope>)
    requires store.Valid()
    modifies store
    ensures Codes(first) == Selection(old(store.envelopes), now)
    ensures |first| == |Selection(old(store.envelopes), now)|
    ensures store.envelopes == ExpireAll(old(store.envelopes), Selection(old(store.envelopes), now))
    ensures store.balances == CreditAll(old(store.balances), first)
    ensures store.journal == old(store.journal) + RefundOrders(first, now)
    ensures second == []
    ensures store.Valid()
    ensures store.claims == old(store.claims) && store.nextId == old(store.nextId)
  {
    first := RefundExpired(store, now, {});
    second := RefundExpired(store, now, {});
  }
}
