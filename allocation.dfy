/**
 * Share allocation: how much one claimant receives, given what is left in an
 * envelope.  Random envelopes use the "double-average" split, Fixed envelopes
 * give every claimant the rounded average and the last claimant the rest.
 * All amounts are cents.
 */
module Allocation {
  import opened Money

  datatype EnvelopeType = Fixed | Random

  /**
   * The largest share a non-terminal Random claimant may draw: twice the
   * current average, but no more than leaves one cent for each of the others,
   * and never below one cent.  The source computes twice the average as a
   * decimal and floors it to cents only when it turns the range into cents;
   * since the other bound and the clamp are whole cents, flooring first gives
   * the same cents.  (One cent for each of n claimants is n cents.)
   */
  function DrawCeiling(remaining: int, count: int): (m: int)
    requires count >= 2 && remaining >= count
    ensures MinUnit <= m <= remaining - (count - 1)
    // m is the largest amount within both bounds: either it leaves exactly a
    // cent for each other claimant, or one cent more would exceed twice the average
    ensures m == remaining - (count - 1) || (m + 1) * count > 2 * remaining
  {
    var twiceAverage := 2 * remaining / count;
    var maxPossible := remaining - (count - 1);
    assert twiceAverage >= 2 by {
      MulMonotone(count, 1, remaining / count);
    }
    var maxAmount := Min(twiceAverage, maxPossible);
    if maxAmount < MinUnit then MinUnit else maxAmount
  }

  /** The ceiling is at most twice the average share. */
  lemma DrawCeilingIsTwiceAverage(remaining: int, count: int)
    requires count >= 2 && remaining >= count
    ensures DrawCeiling(remaining, count) * count <= 2 * remaining
  {
    var m := DrawCeiling(remaining, count);
    assert m <= 2 * remaining / count;
    MulMonotone(count, m, 2 * remaining / count);
  }

  /**
   * calculateRandomAmount: the share of the current claimant of a Random
   * envelope with `count` claimants left (the current one included).  The
   * random draw of the source, uniform on [0, diffCents], is
   * `draw % (diffCents + 1)`: every value of that range is some draw.
   */
  function RandomShare(remaining: int, count: int, draw: nat): (share: int)
    requires count >= 1
    ensures count == 1 ==> share == remaining
    ensures count >= 2 && remaining >= count ==>
      MinUnit <= share <= remaining - (count - 1)
    ensures count >= 2 && 0 <= remaining < count ==>
      0 <= share <= MinUnit && (share == MinUnit <==> 2 * remaining >= count)
  {
    if count == 1 then
      remaining
    else if remaining < count then
      // not a cent for everyone: the even split, rounded to cents
      FallbackShare(remaining, count);
      RoundDiv(remaining, count)
    else
      var maxAmount := DrawCeiling(remaining, count);
      var diffCents := maxAmount - MinUnit;
      if diffCents <= 0 then MinUnit
      else MinUnit + draw % (diffCents + 1)
  }

  lemma FallbackShare(remaining: int, count: int)
    requires count >= 2 && remaining < count
    ensures 0 <= remaining ==> 0 <= RoundDiv(remaining, count) <= 1
    ensures 0 <= remaining ==> (RoundDiv(remaining, count) == 1 <==> 2 * remaining >= count)
  {
    if 0 <= remaining {
      var q := RoundDiv(remaining, count);
      RoundDivNearest(remaining, count);
      assert 2 * count * q < 3 * count;
      assert 2 * count * q > -count;
      MulCancel(count, 2 * q, 3);
      MulCancel(count, -1, 2 * q);
    }
  }

  /**
   * The double-average bound: a non-terminal Random share is at most twice
   * the average of what is left.
   */
  lemma RandomShareCap(remaining: int, count: int, draw: nat)
    requires count >= 2 && remaining >= count
    ensures RandomShare(remaining, count, draw) <= DrawCeiling(remaining, count)
    ensures RandomShare(remaining, count, draw) * count <= 2 * remaining
  {
    var share := RandomShare(remaining, count, draw);
    var m := DrawCeiling(remaining, count);
    DrawCeilingIsTwiceAverage(remaining, count);
    MulMonotone(count, share, m);
  }

  /** Every share between one cent and the ceiling is the outcome of some draw. */
  lemma RandomShareReachable(remaining: int, count: int, share: int)
    requires count >= 2 && remaining >= count
    requires MinUnit <= share <= DrawCeiling(remaining, count)
    ensures RandomShare(remaining, count, share - MinUnit) == share
  {
    var diffCents := DrawCeiling(remaining, count) - MinUnit;
    ModOfSmall(share - MinUnit, diffCents + 1);
  }

  lemma ModOfSmall(x: int, m: int)
    requires 0 <= x < m
    ensures x % m == x
  {
  }

  /**
   * After a claim from a Random envelope that had a cent for everyone, what is
   * left still has a cent for everyone left: such an envelope never reaches
   * the even-split fallback.
   */
  lemma RandomKeepsMinimum(remaining: int, count: int, draw: nat)
    requires count >= 2 && remaining >= count
    ensures remaining - RandomShare(remaining, count, draw) >= count - 1
  {
  }

  /** The fallback may hand out nothing: one cent among three claimants. */
  lemma FallbackCanBeZero(draw: nat)
    ensures RandomShare(1, 3, draw) == 0
  {
  }

  /**
   * The share of a claimant of a Fixed envelope: the last claimant takes what
   * is left, every other one the total divided by the count, rounded to cents.
   */
  function FixedShare(total: int, totalCount: int, remaining: int, remainingCount: int): (share: int)
    requires totalCount >= 1
    ensures remainingCount == 1 ==> share == remaining
    // any other claimant gets the total divided by the count, rounded to the
    // nearest cent, whatever is left
    ensures remainingCount != 1 && total >= 0 ==>
      2 * totalCount * share - totalCount <= 2 * total < 2 * totalCount * share + totalCount
  {
    if remainingCount == 1 then remaining
    else
      RoundDivNearest(total, totalCount);
      RoundDiv(total, totalCount)
  }

  function Sum(s: seq<int>): int
  {
    if s == [] then 0 else s[0] + Sum(s[1..])
  }

  /**
   * The shares that successive claims take from a Fixed envelope, from the
   * given remaining state until its count is used up.
   */
  function FixedRun(total: int, totalCount: int, remaining: int, remainingCount: nat): (shares: seq<int>)
    requires totalCount >= 1
    ensures |shares| == remainingCount
    decreases remainingCount
  {
    if remainingCount == 0 then []
    else
      var s := FixedShare(total, totalCount, remaining, remainingCount);
      [s] + FixedRun(total, totalCount, remaining - s, remainingCount - 1)
  }

  /**
   * The shares that successive claims take from a Random envelope, one draw
   * per claimant left.
   */
  function RandomRun(remaining: int, draws: seq<nat>): (shares: seq<int>)
    ensures |shares| == |draws|
    decreases |draws|
  {
    if draws == [] then []
    else
      var s := RandomShare(remaining, |draws|, draws[0]);
      [s] + RandomRun(remaining - s, draws[1..])
  }

  /** The claims of a Fixed envelope hand out exactly what was left. */
  lemma {:induction false} FixedRunConserves(total: int, totalCount: int, remaining: int, remainingCount: nat)
    requires totalCount >= 1 && remainingCount >= 1
    ensures Sum(FixedRun(total, totalCount, remaining, remainingCount)) == remaining
    decreases remainingCount
  {
    if remainingCount > 1 {
      var s := FixedShare(total, totalCount, remaining, remainingCount);
      FixedRunConserves(total, totalCount, remaining - s, remainingCount - 1);
    }
  }

  /**
   * Every claimant but the last gets the rounded average; the last gets what
   * the others left, whatever rounding did before.
   */
  lemma {:induction false} FixedRunShares(total: int, totalCount: int, remaining: int, remainingCount: nat, i: nat)
    requires totalCount >= 1 && i < remainingCount
    ensures FixedRun(total, totalCount, remaining, remainingCount)[i] ==
      if i < remainingCount - 1 then RoundDiv(total, totalCount)
      else remaining - (remainingCount - 1) * RoundDiv(total, totalCount)
    decreases remainingCount
  {
    var p := RoundDiv(total, totalCount);
    if i > 0 {
      var s := FixedShare(total, totalCount, remaining, remainingCount);
      assert s == p;
      FixedRunShares(total, totalCount, remaining - p, remainingCount - 1, i - 1);
      assert remaining - p - (remainingCount - 2) * p == remaining - (remainingCount - 1) * p;
    }
  }

  /**
   * No share of a Fixed envelope is negative when it holds at least half a
   * cent times the number of other claimants per claimant: rounding the
   * average up by at most half a cent, claimant after claimant, then still
   * leaves the last claimant something.
   */
  lemma FixedRunNonNegative(total: int, count: int, i: nat)
    requires total >= 0 && count >= 1 && i < count
    requires count * (count - 1) <= 2 * total
    ensures FixedRun(total, count, total, count)[i] >= 0
  {
    FixedRunShares(total, count, total, count, i);
    RoundDivBounds(total, count);
    RoundDivNearest(total, count);
    RoundedAverageFits(total, count, RoundDiv(total, count));
  }

  /** A quotient rounded up by at most half, paid count - 1 times, fits in the total. */
  lemma RoundedAverageFits(total: int, count: int, q: int)
    requires total >= 0 && count >= 1 && count * (count - 1) <= 2 * total
    requires 2 * count * q <= 2 * total + count
    ensures (count - 1) * q <= total
  {
    MulMonotone(count - 1, 2 * count * q, 2 * total + count);
    assert (count - 1) * (2 * total + count) <= 2 * count * total;
    assert 2 * count * ((count - 1) * q) <= 2 * count * total;
    LeqCancel(2 * count, (count - 1) * q, total);
  }

  /** 10.00 over three claimants: 3.33, 3.33 and 3.34. */
  lemma FixedTenOverThree()
    ensures FixedRun(1000, 3, 1000, 3) == [333, 333, 334]
  {
    assert RoundDiv(1000, 3) == 333;
  }

  /**
   * 0.15 over ten claimants: the rounded average 0.02 is paid nine times,
   * so the last claimant is handed -0.03.
   */
  lemma FixedTailCanBeNegative()
    ensures FixedRun(15, 10, 15, 10)[9] == -3
  {
    assert RoundDiv(15, 10) == 2;
    FixedRunShares(15, 10, 15, 10, 9);
  }

  /** The claims of a Random envelope hand out exactly what was left. */
  lemma {:induction false} RandomRunConserves(remaining: int, draws: seq<nat>)
    requires |draws| >= 1
    ensures Sum(RandomRun(remaining, draws)) == remaining
    decreases |draws|
  {
    if |draws| > 1 {
      var s := RandomShare(remaining, |draws|, draws[0]);
      RandomRunConserves(remaining - s, draws[1..]);
    }
  }

  /**
   * A Random envelope that starts with at least a cent per claimant gives
   * every claimant at least a cent.
   */
  lemma {:induction false} RandomRunAtLeastOneCent(remaining: int, draws: seq<nat>, i: nat)
    requires remaining >= |draws| && i < |draws|
    ensures RandomRun(remaining, draws)[i] >= MinUnit
    decreases |draws|
  {
    var s := RandomShare(remaining, |draws|, draws[0]);
    if |draws| >= 2 && i > 0 {
      RandomRunAtLeastOneCent(remaining - s, draws[1..], i - 1);
    }
  }
}
