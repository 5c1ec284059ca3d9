/**
 * The data model of the red-envelope sub-ledger: envelopes, claim rows,
 * journal entries (orders of the shared ledger) and user balances, with the
 * invariant that ties envelopes to their claims.
 */
module Ledger {
  import opened Money
  import opened Allocation

  type UserId = nat

  /** An envelope expires 24 hours after it is created; times are seconds. */
  const Lifetime: int := 24 * 60 * 60

  /** The longest greeting the request binding accepts, in characters. */
  const GreetingMaxLength: int := 100

  /** The longest payment key the request binding accepts, in characters. */
  const PayKeyMaxLength: int := 10

  datatype Status = Active | Finished | Expired

  /** One envelope row; amounts are cents. */
  datatype Envelope = Envelope(
    id: nat,
    code: string,
    creator: UserId,
    kind: EnvelopeType,
    total: int,
    remaining: int,
    totalCount: int,
    remainingCount: int,
    greeting: string,
    status: Status,
    expiresAt: int)

  /** One claim row: a user took `amount` cents from an envelope. */
  datatype ClaimRow = ClaimRow(envelopeId: nat, userId: UserId, amount: int, claimedAt: int)

  datatype OrderType = RedEnvelopeSend | RedEnvelopeReceive | RedEnvelopeRefund

  /** A journal entry: an order of the shared ledger recording one money movement. */
  datatype Order = Order(name: string, payer: UserId, payee: UserId, amount: int, kind: OrderType, tradeTime: int)

  /** The error conditions the operations report. */
  datatype Error =
    | Disabled
    | InvalidRequest
    | InvalidAmount
    | DecimalPlacesExceeded
    | AmountTooSmall
    | PayKeyIncorrect
    | UserNotFound
    | InsufficientBalance
    | DuplicateCode
    | EnvelopeNotFound
    | EnvelopeExpired
    | EnvelopeFinished
    | AlreadyClaimed

  const SendName: string := "红包支出"
  const ReceiveName: string := "红包收入"
  const RefundName: string := "红包退款"

  /**
   * The name of a journal entry: "<base>-<greeting>", or the base alone when
   * the greeting is empty.
   */
  function OrderName(base: string, greeting: string): (name: string)
    ensures name == base <==> greeting == ""
    ensures greeting != "" ==> name == base + "-" + greeting
  {
    var formatted := base + "-" + greeting;
    assert |formatted| == |base| + 1 + |greeting|;
    if formatted == base + "-" then base else formatted
  }

  /**
   * Adds to a user's balance.  Like an UPDATE whose WHERE matches no row, it
   * changes nothing when the user has no balance row.
   */
  function Credit(balances: map<UserId, int>, user: UserId, amount: int): (b: map<UserId, int>)
    ensures b.Keys == balances.Keys
    ensures user in balances ==> b[user] - balances[user] == amount
    ensures forall u | u in balances && u != user :: b[u] == balances[u]
  {
    if user in balances then balances[user := balances[user] + amount] else balances
  }

  /** The share the current claimant of an envelope receives. */
  function ClaimShare(e: Envelope, draw: nat): (share: int)
    requires e.totalCount >= 1 && e.remainingCount >= 1
    // whatever the type, the last claimant takes exactly what is left
    ensures e.remainingCount == 1 ==> share == e.remaining
    ensures e.kind == Random && e.remainingCount >= 2 && e.remaining >= e.remainingCount ==>
      MinUnit <= share <= e.remaining - (e.remainingCount - 1)
  {
    if e.kind == Fixed then FixedShare(e.total, e.totalCount, e.remaining, e.remainingCount)
    else RandomShare(e.remaining, e.remainingCount, draw)
  }

  /** The envelope after one claim of `share` cents. */
  function AfterClaim(e: Envelope, share: int): (after: Envelope)
    ensures after.remaining + share == e.remaining
    ensures after.remainingCount == e.remainingCount - 1
    ensures after.status == Finished <==> after.remainingCount <= 0 || e.status == Finished
    ensures after.remainingCount > 0 ==> after.status == e.status
    ensures after.id == e.id && after.code == e.code && after.creator == e.creator && after.kind == e.kind
    ensures after.total == e.total && after.totalCount == e.totalCount && after.expiresAt == e.expiresAt
    ensures after.greeting == e.greeting
  {
    var newCount := e.remainingCount - 1;
    e.(remainingCount := newCount,
       remaining := e.remaining - share,
       status := if newCount <= 0 then Finished else e.status)
  }

  /**
   * A Fixed envelope of 10.00 in three shares, claimed out: 3.33, 3.33 and
   * the rest, 3.34, after which it is finished and empty.
   */
  lemma FixedEnvelopeClaimedOut(e0: Envelope)
    requires e0.kind == Fixed && e0.total == e0.remaining == 1000
    requires e0.totalCount == e0.remainingCount == 3 && e0.status == Active
    ensures var e1 := AfterClaim(e0, ClaimShare(e0, 0));
      var e2 := AfterClaim(e1, ClaimShare(e1, 0));
      && ClaimShare(e0, 0) == 333 && ClaimShare(e1, 0) == 333 && ClaimShare(e2, 0) == 334
      && e1.status == Active && e2.status == Active
      && AfterClaim(e2, ClaimShare(e2, 0)).status == Finished
      && AfterClaim(e2, ClaimShare(e2, 0)).remaining == 0
  {
    assert RoundDiv(1000, 3) == 333;
  }

  /** The user has a claim row for the envelope. */
  predicate Claimed(claims: seq<ClaimRow>, envelopeId: nat, user: UserId)
  {
    exists i | 0 <= i < |claims| :: claims[i].envelopeId == envelopeId && claims[i].userId == user
  }

  /** The cents claimed from an envelope. */
  function ClaimedSum(claims: seq<ClaimRow>, envelopeId: nat): int
  {
    if claims == [] then 0
    else
      var last := claims[|claims| - 1];
      ClaimedSum(claims[..|claims| - 1], envelopeId) + (if last.envelopeId == envelopeId then last.amount else 0)
  }

  /** The number of claims of an envelope. */
  function ClaimCount(claims: seq<ClaimRow>, envelopeId: nat): nat
  {
    if claims == [] then 0
    else
      var last := claims[|claims| - 1];
      ClaimCount(claims[..|claims| - 1], envelopeId) + (if last.envelopeId == envelopeId then 1 else 0)
  }

  /** The claims of an envelope, the newest first. */
  function ClaimsOf(claims: seq<ClaimRow>, envelopeId: nat): (rows: seq<ClaimRow>)
  {
    if claims == [] then []
    else
      var last := claims[|claims| - 1];
      (if last.envelopeId == envelopeId then [last] else []) + ClaimsOf(claims[..|claims| - 1], envelopeId)
  }

  lemma ClaimsAppend(claims: seq<ClaimRow>, row: ClaimRow, envelopeId: nat)
    ensures ClaimedSum(claims + [row], envelopeId) ==
      ClaimedSum(claims, envelopeId) + (if row.envelopeId == envelopeId then row.amount else 0)
    ensures ClaimCount(claims + [row], envelopeId) ==
      ClaimCount(claims, envelopeId) + (if row.envelopeId == envelopeId then 1 else 0)
  {
    assert (claims + [row])[..|claims|] == claims;
  }

  /** An envelope id no claim row refers to has no claims. */
  lemma {:induction false} NoClaimsOfFreshId(claims: seq<ClaimRow>, id: nat)
    requires forall i | 0 <= i < |claims| :: claims[i].envelopeId < id
    ensures ClaimedSum(claims, id) == 0 && ClaimCount(claims, id) == 0
  {
    if claims != [] {
      NoClaimsOfFreshId(claims[..|claims| - 1], id);
    }
  }

  /** ClaimsOf lists exactly the claim rows of the envelope. */
  lemma {:induction false} ClaimsOfMembers(claims: seq<ClaimRow>, envelopeId: nat, row: ClaimRow)
    ensures row in ClaimsOf(claims, envelopeId) <==> row in claims && row.envelopeId == envelopeId
  {
    if claims != [] {
      var front := claims[..|claims| - 1];
      ClaimsOfMembers(front, envelopeId, row);
      assert claims == front + [claims[|claims| - 1]];
    }
  }

  /** The counts and the status of an envelope agree. */
  ghost predicate WellFormed(e: Envelope)
  {
    && e.totalCount >= 1
    && 0 <= e.remainingCount <= e.totalCount
    && (e.remainingCount == 0 <==> e.status != Active)
    && (e.status == Expired ==> e.remaining == 0)
    && (e.status == Finished ==> e.remaining == 0)
  }

  /**
   * Until an envelope expires, its claims and what is left add up to what it
   * was created with, in cents and in claimants.
   */
  ghost predicate Accounted(e: Envelope, claims: seq<ClaimRow>)
  {
    e.status != Expired ==>
      && ClaimedSum(claims, e.id) + e.remaining == e.total
      && ClaimCount(claims, e.id) + e.remainingCount == e.totalCount
  }

  /**
   * The invariant of the stored envelopes and claims: every envelope is
   * stored under its code, envelope ids are distinct and below the next id,
   * every claim refers to an id already handed out, no user claims an
   * envelope twice, and every envelope is well formed and accounted for.
   */
  ghost predicate Consistent(envelopes: map<string, Envelope>, claims: seq<ClaimRow>, nextId: nat)
  {
    && (forall k | k in envelopes ::
          envelopes[k].code == k && envelopes[k].id < nextId &&
          WellFormed(envelopes[k]) && Accounted(envelopes[k], claims))
    && (forall k1, k2 | k1 in envelopes && k2 in envelopes && envelopes[k1].id == envelopes[k2].id :: k1 == k2)
    && (forall i | 0 <= i < |claims| :: claims[i].envelopeId < nextId)
    && (forall i, j | 0 <= i < j < |claims| ::
          claims[i].envelopeId != claims[j].envelopeId || claims[i].userId != claims[j].userId)
  }

  /** A new Active envelope under a fresh code and the next id keeps the invariant. */
  lemma CreateKeepsConsistent(envelopes: map<string, Envelope>, claims: seq<ClaimRow>, nextId: nat, e: Envelope)
    requires Consistent(envelopes, claims, nextId)
    requires e.code !in envelopes && e.id == nextId
    requires e.status == Active && e.remaining == e.total && 1 <= e.remainingCount == e.totalCount
    ensures Consistent(envelopes[e.code := e], claims, nextId + 1)
  {
    NoClaimsOfFreshId(claims, nextId);
  }

  /**
   * A claim by a user who has not claimed an Active envelope keeps the
   * invariant.
   */
  lemma ClaimKeepsConsistent(envelopes: map<string, Envelope>, claims: seq<ClaimRow>, nextId: nat,
                             code: string, user: UserId, share: int, now: int)
    requires Consistent(envelopes, claims, nextId)
    requires code in envelopes && envelopes[code].status == Active
    requires !Claimed(claims, envelopes[code].id, user)
    requires envelopes[code].remainingCount == 1 ==> share == envelopes[code].remaining
    ensures var e := envelopes[code];
      Consistent(envelopes[code := AfterClaim(e, share)], claims + [ClaimRow(e.id, user, share, now)], nextId)
  {
    var e := envelopes[code];
    var row := ClaimRow(e.id, user, share, now);
    var envelopes' := envelopes[code := AfterClaim(e, share)];
    var claims' := claims + [row];
    forall k | k in envelopes'
      ensures Accounted(envelopes'[k], claims')
    {
      ClaimsAppend(claims, row, envelopes'[k].id);
    }
    forall i, j | 0 <= i < j < |claims'|
      ensures claims'[i].envelopeId != claims'[j].envelopeId || claims'[i].userId != claims'[j].userId
    {
      if j == |claims| {
        assert claims'[i] == claims[i];
      }
    }
  }

  /**
   * Once an envelope of a consistent store is finished, its claims add up to
   * exactly its total: everything it was created with went to claimants.
   */
  lemma FinishedFullyClaimed(envelopes: map<string, Envelope>, claims: seq<ClaimRow>, nextId: nat, code: string)
    requires Consistent(envelopes, claims, nextId)
    requires code in envelopes && envelopes[code].status == Finished
    ensures ClaimedSum(claims, envelopes[code].id) == envelopes[code].total
    ensures ClaimCount(claims, envelopes[code].id) == envelopes[code].totalCount
  {
  }

  /** The envelope as the expiry sweep leaves it. */
  function Expire(e: Envelope): (expired: Envelope)
    ensures expired.status == Expired && expired.remaining == 0 && expired.remainingCount == 0
    ensures expired.id == e.id && expired.code == e.code && expired.creator == e.creator
    ensures expired.kind == e.kind && expired.total == e.total && expired.totalCount == e.totalCount
    ensures expired.greeting == e.greeting && expired.expiresAt == e.expiresAt
    ensures WellFormed(e) ==> WellFormed(expired)
  {
    e.(status := Expired, remaining := 0, remainingCount := 0)
  }

  /** Expiring a stored envelope keeps the invariant. */
  lemma ExpireKeepsConsistent(envelopes: map<string, Envelope>, claims: seq<ClaimRow>, nextId: nat, code: string)
    requires Consistent(envelopes, claims, nextId)
    requires code in envelopes
    ensures Consistent(envelopes[code := Expire(envelopes[code])], claims, nextId)
  {
  }
}
