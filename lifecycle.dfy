/**
 * The envelope lifecycle of internal/apps/redenvelope/routers.go: creating an
 * envelope, claiming a share, and reading an envelope with its claims.  The
 * database is the Store object; each transaction is one method that either
 * applies all of its updates or reports an error and changes nothing.  The
 * clock, the payment-key verdict, the generated code, the feature switch and
 * the random draw are parameters.
 */
module Lifecycle {
  import opened Wrappers
  import opened Money
  import opened Allocation
  import opened Ledger

  /**
   * The checks Create makes before it opens its transaction, in the source's
   * order; on success, the total in cents.  `payKeyOk` is the creator's
   * verdict on `payKey`.
   */
  function CheckCreate(enabled: bool, kind: EnvelopeType, amount: Decimal, count: int,
                       greeting: string, payKey: string, payKeyOk: bool): (r: Result<int, Error>)
    ensures r.Success? <==>
      && enabled && WellFormedRequest(count, greeting, payKey)
      && amount.coefficient > 0 && amount.exponent >= -2
      && (kind == Fixed ==> ToCents(amount) >= count)
      && payKeyOk
    ensures r.Success? ==> r.value == ToCents(amount) && r.value > 0
    ensures r.Success? && kind == Fixed ==> r.value >= count
    ensures !enabled ==> r == Failure(Disabled)
    ensures enabled && !WellFormedRequest(count, greeting, payKey) ==> r == Failure(InvalidRequest)
    ensures enabled && amount.exponent < -2 && WellFormedRequest(count, greeting, payKey) ==>
      r == Failure(if amount.coefficient <= 0 then InvalidAmount else DecimalPlacesExceeded)
    ensures enabled && WellFormedRequest(count, greeting, payKey) && amount.coefficient <= 0 ==>
      r == Failure(InvalidAmount)
    ensures && enabled && WellFormedRequest(count, greeting, payKey)
            && amount.coefficient > 0 && amount.exponent >= -2
            && kind == Fixed && ToCents(amount) < count
            ==> r == Failure(AmountTooSmall)
    ensures && enabled && WellFormedRequest(count, greeting, payKey)
            && amount.coefficient > 0 && amount.exponent >= -2
            && (kind == Fixed ==> ToCents(amount) >= count) && !payKeyOk
            ==> r == Failure(PayKeyIncorrect)
  {
    if !enabled then Failure(Disabled)
    else if !WellFormedRequest(count, greeting, payKey) then Failure(InvalidRequest)
    else if amount.coefficient <= 0 then Failure(InvalidAmount)
    else if amount.exponent < -2 then Failure(DecimalPlacesExceeded)
    // a Fixed share is total / count; below one cent means total < count cents
    else if kind == Fixed && ToCents(amount) < count then Failure(AmountTooSmall)
    else if !payKeyOk then Failure(PayKeyIncorrect)
    else Success(ToCents(amount))
  }

  /**
   * The binding rules of a create request: at least one share, a greeting of
   * at most 100 characters, a payment key of one to ten characters.
   */
  predicate WellFormedRequest(count: int, greeting: string, payKey: string)
  {
    count >= 1 && |greeting| <= GreetingMaxLength && 1 <= |payKey| <= PayKeyMaxLength
  }

  /** 0.02 over three Fixed shares is rejected: each would be under a cent. */
  lemma FixedTooSmallRejected(payKeyOk: bool)
    ensures CheckCreate(true, Fixed, Decimal(2, -2), 3, "", "123456", payKeyOk) == Failure(AmountTooSmall)
  {
  }

  /**
   * The decimal-places check looks at how the amount is written: 1.000 is
   * rejected although it is one whole unit, 1.00 and 1 are accepted.
   */
  lemma DecimalPlacesByExponent()
    ensures CheckCreate(true, Random, Decimal(1000, -3), 1, "", "123456", true) == Failure(DecimalPlacesExceeded)
    ensures CheckCreate(true, Random, Decimal(100, -2), 1, "", "123456", true) == Success(100)
    ensures CheckCreate(true, Random, Decimal(1, 0), 1, "", "123456", true) == Success(100)
  {
  }

  /** What a successful Create returns. */
  datatype Created = Created(id: nat, code: string)

  /** What a successful Claim returns: the share and the envelope after the claim. */
  datatype ClaimReceipt = ClaimReceipt(amount: int, envelope: Envelope)

  /** What GetDetail returns: the envelope, its claims newest first, and the caller's claim. */
  datatype Detail = Detail(envelope: Envelope, claims: seq<ClaimRow>, own: Option<ClaimRow>)

  /**
   * The caller's own claim among the claims of an envelope: the first row
   * whose user is the caller.
   */
  method FindOwnClaim(rows: seq<ClaimRow>, user: UserId) returns (own: Option<ClaimRow>)
    ensures own.None? <==> forall i | 0 <= i < |rows| :: rows[i].userId != user
    ensures own.Some? ==> exists i | 0 <= i < |rows| ::
      rows[i] == own.value && rows[i].userId == user &&
      forall j | 0 <= j < i :: rows[j].userId != user
  {
    own := None;
    var i := 0;
    while i < |rows|
      invariant 0 <= i <= |rows|
      invariant forall j | 0 <= j < i :: rows[j].userId != user
    {
      if rows[i].userId == user {
        own := Some(rows[i]);
        return;
      }
      i := i + 1;
    }
  }

  /** The envelopes, claims, balances and journal, held in memory. */
  class Store {
    var envelopes: map<string, Envelope>
    var claims: seq<ClaimRow>
    var balances: map<UserId, int>
    var journal: seq<Order>
    var nextId: nat

    ghost predicate Valid()
      reads this
    {
      Consistent(envelopes, claims, nextId)
    }

    /** A store with the given balances and no envelopes; ids start at 1. */
    constructor (initialBalances: map<UserId, int>)
      ensures Valid()
      ensures envelopes == map[] && claims == [] && journal == []
      ensures balances == initialBalances && nextId == 1
    {
      envelopes := map[];
      claims := [];
      balances := initialBalances;
      journal := [];
      nextId := 1;
    }

    /**
     * Create: validate the request, then in one transaction debit the
     * creator, insert the envelope and record the debit.  `code` is the
     * freshly generated claim code.
     */
    method Create(enabled: bool, creator: UserId, kind: EnvelopeType, amount: Decimal, count: int,
                  greeting: string, payKey: string, payKeyOk: bool, code: string, now: int)
      returns (res: Result<Created, Error>)
      requires Valid()
      modifies this
      ensures Valid()
      ensures res.Failure? ==> unchanged(this)
      ensures var checked := CheckCreate(enabled, kind, amount, count, greeting, payKey, payKeyOk);
        if checked.Failure? then res == Failure(checked.error)
        else if creator !in old(balances) then res == Failure(UserNotFound)
        else if old(balances)[creator] < checked.value then res == Failure(InsufficientBalance)
        else if code in old(envelopes) then res == Failure(DuplicateCode)
        else
          var total := checked.value;
          && res == Success(Created(old(nextId), code))
          && balances == old(balances)[creator := old(balances)[creator] - total]
          && envelopes == old(envelopes)[code := Envelope(old(nextId), code, creator, kind, total, total,
                                                          count, count, greeting, Active, now + Lifetime)]
          && journal == old(journal) + [Order(OrderName(SendName, greeting), creator, creator, total,
                                              RedEnvelopeSend, now)]
          && claims == old(claims)
          && nextId == old(nextId) + 1
    {
      var checked := CheckCreate(enabled, kind, amount, count, greeting, payKey, payKeyOk);
      if checked.Failure? {
        return Failure(checked.error);
      }
      var total := checked.value;
      // transaction: lock the creator's balance row
      if creator !in balances {
        return Failure(UserNotFound);
      }
      if balances[creator] < total {
        return Failure(InsufficientBalance);
      }
      if code in envelopes {
        // the insert of the envelope row fails and the transaction rolls back
        return Failure(DuplicateCode);
      }
      var e := Envelope(nextId, code, creator, kind, total, total, count, count, greeting, Active, now + Lifetime);
      CreateKeepsConsistent(envelopes, claims, nextId, e);
      balances := balances[creator := balances[creator] - total];
      envelopes := envelopes[code := e];
      nextId := nextId + 1;
      journal := journal + [Order(OrderName(SendName, greeting), creator, creator, total, RedEnvelopeSend, now)];
      res := Success(Created(e.id, code));
    }

    /**
     * Claim: in one transaction find the envelope by code, reject it when it
     * is expired, finished or already claimed by the user, compute the share,
     * record the claim, update the envelope, credit the claimer and record
     * the credit.
     */
    method Claim(enabled: bool, code: string, user: UserId, now: int, draw: nat)
      returns (res: Result<ClaimReceipt, Error>)
      requires Valid()
      modifies this
      ensures Valid()
      ensures res.Failure? ==> unchanged(this)
      ensures !enabled ==> res == Failure(Disabled)
      ensures enabled && code == "" ==> res == Failure(InvalidRequest)
      ensures enabled && code != "" && code !in old(envelopes) ==> res == Failure(EnvelopeNotFound)
      ensures enabled && code != "" && code in old(envelopes) ==>
        var e := old(envelopes)[code];
        if e.status == Expired || e.expiresAt < now then res == Failure(EnvelopeExpired)
        else if e.status == Finished || e.remainingCount <= 0 then res == Failure(EnvelopeFinished)
        else if Claimed(old(claims), e.id, user) then res == Failure(AlreadyClaimed)
        else
          var share := ClaimShare(e, draw);
          && code in envelopes
          && res == Success(ClaimReceipt(share, envelopes[code]))
          && envelopes == old(envelopes)[code := envelopes[code]]
          && envelopes[code].remainingCount == e.remainingCount - 1
          && envelopes[code].remaining + share == e.remaining
          && envelopes[code].status == (if e.remainingCount - 1 <= 0 then Finished else e.status)
          && envelopes[code] == e.(remainingCount := envelopes[code].remainingCount,
                                    remaining := envelopes[code].remaining,
                                    status := envelopes[code].status)
          && claims == old(claims) + [ClaimRow(e.id, user, share, now)]
          && balances == Credit(old(balances), user, share)
          && journal == old(journal) + [Order(OrderName(ReceiveName, e.greeting), e.creator, user, share,
                                              RedEnvelopeReceive, now)]
          && nextId == old(nextId)
      // a user who has claimed an envelope is never credited by it again
      ensures code in old(envelopes) && Claimed(old(claims), old(envelopes)[code].id, user) ==> res.Failure?
      ensures res.Success? ==> code in envelopes && Claimed(claims, envelopes[code].id, user)
    {
      if !enabled {
        return Failure(Disabled);
      }
      if code == "" {
        return Failure(InvalidRequest);
      }
      // transaction: lock the envelope row by code
      if code !in envelopes {
        return Failure(EnvelopeNotFound);
      }
      var e := envelopes[code];
      if e.status == Expired || e.expiresAt < now {
        return Failure(EnvelopeExpired);
      }
      if e.status == Finished || e.remainingCount <= 0 {
        return Failure(EnvelopeFinished);
      }
      if Claimed(claims, e.id, user) {
        return Failure(AlreadyClaimed);
      }
      var share := ClaimShare(e, draw);
      var updated := AfterClaim(e, share);
      ClaimKeepsConsistent(envelopes, claims, nextId, code, user, share, now);
      claims := claims + [ClaimRow(e.id, user, share, now)];
      assert claims[|claims| - 1] == ClaimRow(e.id, user, share, now);
      envelopes := envelopes[code := updated];
      balances := Credit(balances, user, share);
      journal := journal + [Order(OrderName(ReceiveName, e.greeting), e.creator, user, share, RedEnvelopeReceive, now)];
      res := Success(ClaimReceipt(share, updated));
    }

    /**
     * GetDetail: the envelope with the given code, its claims newest first,
     * and the caller's own claim when there is a caller and they have claimed.
     */
    method GetDetail(code: string, caller: Option<UserId>) returns (res: Result<Detail, Error>)
      requires Valid()
      ensures code !in envelopes ==> res == Failure(EnvelopeNotFound)
      ensures code in envelopes ==>
        && res.Success?
        && res.value.envelope == envelopes[code]
        && res.value.claims == ClaimsOf(claims, envelopes[code].id)
        && (res.value.own.Some? <==> caller.Some? && Claimed(claims, envelopes[code].id, caller.value))
      ensures code in envelopes && res.Success? && res.value.own.Some? ==>
        forall i | 0 <= i < |claims| ::
          claims[i].envelopeId == envelopes[code].id && claims[i].userId == caller.value <==>
          claims[i] == res.value.own.value
    {
      if code !in envelopes {
        return Failure(EnvelopeNotFound);
      }
      var e := envelopes[code];
      var rows := ClaimsOf(claims, e.id);
      var own: Option<ClaimRow> := None;
      if caller.Some? {
        own := FindOwnClaim(rows, caller.value);
        if own.Some? {
          ClaimsOfMembers(claims, e.id, own.value);
          OwnClaimIsUnique(claims, e.id, caller.value, own.value);
        } else {
          forall i | 0 <= i < |claims| && claims[i].envelopeId == e.id
            ensures claims[i].userId != caller.value
          {
            ClaimsOfMembers(claims, e.id, claims[i]);
          }
        }
      }
      res := Success(Detail(e, rows, own));
    }
  }

  /** With no user claiming an envelope twice, a user's claim row of it is the only one. */
  lemma OwnClaimIsUnique(claims: seq<ClaimRow>, envelopeId: nat, user: UserId, row: ClaimRow)
    requires forall i, j | 0 <= i < j < |claims| ::
      claims[i].envelopeId != claims[j].envelopeId || claims[i].userId != claims[j].userId
    requires row in claims && row.envelopeId == envelopeId && row.userId == user
    ensures forall i | 0 <= i < |claims| ::
      claims[i].envelopeId == envelopeId && claims[i].userId == user <==> claims[i] == row
  {
    var k :| 0 <= k < |claims| && claims[k] == row;
  }
}
