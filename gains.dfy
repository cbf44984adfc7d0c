/**
 * The gains of a policy (utils/technical.py, `gains`) and the score the
 * strategies report as "winning".
 *
 * `gains` takes the prices at the marked bars, in order, and gives for each of
 * them the relative change to the price at the next mark, less twice the
 * commission, scaled by the budget; the last mark has no next mark, so its
 * entry is missing (pandas NaN, here `None`). Every consecutive pair of marks
 * counts, a close followed by the next open included. The winning score is the
 * sum of the defined gains less the buy-and-hold return over the whole series,
 * in percent.
 */
module Gains {
  import opened Wrappers
  import opened Mask

  /** The default budget of `gains`, also the scale of the buy-and-hold return in the winning score. */
  const Budget: real := 100.0

  /** Every price is positive, so that every ratio of prices is defined. */
  predicate Positive(prices: seq<real>) {
    forall i :: 0 <= i < |prices| ==> prices[i] > 0.0
  }

  /** The prices at the given bars, in the given order (`prices[policy]`). */
  function Pick(prices: seq<real>, bars: seq<nat>): (q: seq<real>)
    requires forall k :: 0 <= k < |bars| ==> bars[k] < |prices|
    ensures |q| == |bars|
    ensures forall k :: 0 <= k < |q| ==> q[k] == prices[bars[k]]
    ensures Positive(prices) ==> Positive(q)
  {
    seq(|bars|, k requires 0 <= k < |bars| => prices[bars[k]])
  }

  /**
   * `shift(-1) / q - 1`: the relative change from each entry to the next one;
   * the last entry has no successor and is missing.
   */
  function Returns(q: seq<real>): (r: seq<Option<real>>)
    requires Positive(q)
    ensures |r| == |q|
    ensures forall k :: 0 <= k < |r| ==> (r[k].Some? <==> k + 1 < |q|)
    ensures forall k :: 0 <= k < |r| - 1 ==> r[k].value == q[k + 1] / q[k] - 1.0
  {
    seq(|q|, k requires 0 <= k < |q| => if k + 1 < |q| then Some(q[k + 1] / q[k] - 1.0) else None)
  }

  /** `(r - commissions * 2) * Budget` on every defined entry; a missing entry stays missing. */
  function Net(r: seq<Option<real>>, commissions: real): (g: seq<Option<real>>)
    ensures |g| == |r|
    ensures forall k :: 0 <= k < |g| ==> (g[k].Some? <==> r[k].Some?)
    ensures forall k :: 0 <= k < |g| && r[k].Some? ==> g[k].value == (r[k].value - commissions * 2.0) * Budget
  {
    seq(|r|, k requires 0 <= k < |r| => if r[k].Some? then Some((r[k].value - commissions * 2.0) * Budget) else None)
  }

  /**
   * The gains of a policy: one entry per mark m_k, holding
   * (p[m_(k+1)] / p[m_k] - 1 - 2 * commissions) * Budget, and missing at the last mark.
   */
  function GainsOf(prices: seq<real>, mask: seq<bool>, commissions: real): (g: seq<Option<real>>)
    requires |prices| == |mask| && Positive(prices)
    ensures |g| == |Marks(mask)|
    ensures forall k :: 0 <= k < |g| ==> (g[k].Some? <==> k + 1 < |g|)
  {
    Net(Returns(Pick(prices, Marks(mask))), commissions)
  }

  /** Entry k of the gains, for a mark k with a next mark, in terms of the prices at the two marks. */
  lemma GainAt(prices: seq<real>, mask: seq<bool>, commissions: real, k: nat)
    requires |prices| == |mask| && Positive(prices) && k + 1 < |Marks(mask)|
    ensures GainsOf(prices, mask, commissions)[k].value ==
      (prices[Marks(mask)[k + 1]] / prices[Marks(mask)[k]] - 1.0 - commissions * 2.0) * Budget
  {
    var m := Marks(mask);
    var q := Pick(prices, m);
    var r := Returns(q);
    assert q[k] == prices[m[k]] && q[k + 1] == prices[m[k + 1]];
    assert r[k].Some? && r[k].value == q[k + 1] / q[k] - 1.0;
    assert Net(r, commissions)[k].value == (r[k].value - commissions * 2.0) * Budget;
  }

  /** The sum of the defined entries among the first n, missing entries skipped. */
  function SumTo(g: seq<Option<real>>, n: nat): real
    requires n <= |g|
  {
    if n == 0 then 0.0
    else SumTo(g, n - 1) + (if g[n - 1].Some? then g[n - 1].value else 0.0)
  }

  /** `Series.sum()`: the sum of the defined entries. */
  function SumDefined(g: seq<Option<real>>): real {
    SumTo(g, |g|)
  }

  /** The number of defined entries among the first n. */
  function DefinedTo(g: seq<Option<real>>, n: nat): (d: nat)
    requires n <= |g|
    ensures d <= n
  {
    if n == 0 then 0
    else DefinedTo(g, n - 1) + (if g[n - 1].Some? then 1 else 0)
  }

  /** The number of defined entries. */
  function Defined(g: seq<Option<real>>): nat {
    DefinedTo(g, |g|)
  }

  /** `diff * 100`: the buy-and-hold return from the first to the last baseline price, in percent. */
  function BuyAndHold(baseline: seq<real>): real
    requires |baseline| > 0 && Positive(baseline)
  {
    (baseline[|baseline| - 1] / baseline[0] - 1.0) * 100.0
  }

  /** `gain.sum() - diff * 100`: the summed defined gains less the buy-and-hold return. */
  function WinningScore(gains: seq<Option<real>>, baseline: seq<real>): real
    requires |baseline| > 0 && Positive(baseline)
  {
    SumDefined(gains) - BuyAndHold(baseline)
  }

  /**
   * The winning score of a policy over its own price series: the
   * commission-free gains, less 2 * commissions * Budget for each of the n - 1
   * consecutive pairs of its n marks, less the buy-and-hold return in percent.
   */
  function Winning(prices: seq<real>, mask: seq<bool>, commissions: real): (r: real)
    requires |prices| == |mask| && |prices| > 0 && Positive(prices)
    ensures |Marks(mask)| > 0 ==>
      r == SumDefined(GainsOf(prices, mask, 0.0)) - Charged(commissions * 2.0 * Budget, |Marks(mask)| - 1)
           - BuyAndHold(prices)
  {
    if |Marks(mask)| > 0 then
      GainsCommissionCost(prices, mask, commissions);
      WinningScore(GainsOf(prices, mask, commissions), prices)
    else
      WinningScore(GainsOf(prices, mask, commissions), prices)
  }

  /** All but the last of n marks carry a defined gain: n - 1 consecutive pairs. */
  lemma GainsDefined(prices: seq<real>, mask: seq<bool>, commissions: real)
    requires |prices| == |mask| && Positive(prices) && |Marks(mask)| > 0
    ensures Defined(GainsOf(prices, mask, commissions)) == |Marks(mask)| - 1
  {
    var g := GainsOf(prices, mask, commissions);
    DefinedPrefix(g, |g| - 1);
  }

  /** A prefix whose entries are all defined counts every one of them. */
  lemma {:induction false} DefinedPrefix(g: seq<Option<real>>, n: nat)
    requires n < |g| && g[n].None?
    requires forall k :: 0 <= k < n ==> g[k].Some?
    ensures DefinedTo(g, n) == n && DefinedTo(g, n + 1) == n
  {
    if n > 0 {
      DefinedAll(g, n - 1);
    }
  }

  lemma {:induction false} DefinedAll(g: seq<Option<real>>, n: nat)
    requires n < |g|
    requires forall k :: 0 <= k <= n ==> g[k].Some?
    ensures DefinedTo(g, n + 1) == n + 1
  {
    if n > 0 {
      DefinedAll(g, n - 1);
    }
  }

  /** A cost paid n times, one payment after another. */
  function Charged(cost: real, n: nat): real {
    if n == 0 then 0.0 else Charged(cost, n - 1) + cost
  }

  /** Paying a cost n times costs n times the cost. */
  lemma {:induction false} ChargedProduct(cost: real, n: nat)
    ensures Charged(cost, n) == cost * (n as real)
  {
    if n > 0 {
      ChargedProduct(cost, n - 1);
    }
  }

  /**
   * Two series defined at the same entries, the first less by cost at each:
   * the sums over the first n differ by cost for every defined entry.
   */
  lemma {:induction false} SumLessCost(g: seq<Option<real>>, h: seq<Option<real>>, cost: real, n: nat)
    requires |g| == |h| && n <= |g|
    requires forall k :: 0 <= k < |g| ==> (g[k].Some? <==> h[k].Some?)
    requires forall k :: 0 <= k < |g| && g[k].Some? ==> g[k].value == h[k].value - cost
    ensures SumTo(g, n) == SumTo(h, n) - Charged(cost, DefinedTo(h, n))
  {
    if n > 0 {
      SumLessCost(g, h, cost, n - 1);
    }
  }

  /** CommissionAt at every entry: the gains with commissions are the commission-free gains less the commission. */
  lemma CommissionEverywhere(prices: seq<real>, mask: seq<bool>, commissions: real)
    requires |prices| == |mask| && Positive(prices)
    ensures var g, h := GainsOf(prices, mask, commissions), GainsOf(prices, mask, 0.0);
      |g| == |h| &&
      (forall k :: 0 <= k < |g| ==> (g[k].Some? <==> h[k].Some?)) &&
      (forall k :: 0 <= k < |g| && g[k].Some? ==> g[k].value == h[k].value - commissions * 2.0 * Budget)
  {
    var g, h := GainsOf(prices, mask, commissions), GainsOf(prices, mask, 0.0);
    forall k | 0 <= k < |g| && g[k].Some?
      ensures g[k].value == h[k].value - commissions * 2.0 * Budget
    {
      CommissionAt(prices, mask, commissions, k);
    }
  }

  lemma CommissionSplit(x: real, commissions: real)
    ensures (x - 1.0 - commissions * 2.0) * Budget == (x - 1.0 - 0.0 * 2.0) * Budget - commissions * 2.0 * Budget
  {
  }

  /** At each mark with a next mark, the commission takes 2 * commissions * Budget off the commission-free gain. */
  lemma CommissionAt(prices: seq<real>, mask: seq<bool>, commissions: real, k: nat)
    requires |prices| == |mask| && Positive(prices) && k + 1 < |Marks(mask)|
    ensures GainsOf(prices, mask, commissions)[k].value == GainsOf(prices, mask, 0.0)[k].value - commissions * 2.0 * Budget
  {
    var m := Marks(mask);
    GainAt(prices, mask, commissions, k);
    GainAt(prices, mask, 0.0, k);
    CommissionSplit(prices[m[k + 1]] / prices[m[k]], commissions);
  }

  /**
   * The summed gains of a policy with n > 0 marks are its commission-free
   * gains less 2 * commissions * Budget for each of its n - 1 consecutive pairs.
   */
  lemma GainsCommissionCost(prices: seq<real>, mask: seq<bool>, commissions: real)
    requires |prices| == |mask| && Positive(prices) && |Marks(mask)| > 0
    ensures SumDefined(GainsOf(prices, mask, commissions)) ==
      SumDefined(GainsOf(prices, mask, 0.0)) - Charged(commissions * 2.0 * Budget, |Marks(mask)| - 1)
  {
    var g, h := GainsOf(prices, mask, commissions), GainsOf(prices, mask, 0.0);
    CommissionEverywhere(prices, mask, commissions);
    SumLessCost(g, h, commissions * 2.0 * Budget, |g|);
    GainsDefined(prices, mask, 0.0);
  }

  /** The product of 1 + x / Budget over the defined entries x among the first n: each gain as a growth factor. */
  function GrowthTo(g: seq<Option<real>>, n: nat): real
    requires n <= |g|
  {
    if n == 0 then 1.0
    else GrowthTo(g, n - 1) * (if g[n - 1].Some? then 1.0 + g[n - 1].value / Budget else 1.0)
  }

  lemma SelfRatio(a: real)
    requires a > 0.0
    ensures a / a == 1.0
  {
  }

  lemma RatioChain(a: real, b: real, c: real)
    requires a > 0.0 && b > 0.0
    ensures (b / a) * (c / b) == c / a
  {
  }

  /**
   * Entries whose growth factors are the ratios of consecutive prices q
   * compound, over the first n, to the ratio of q[n] to q[0].
   */
  lemma {:induction false} GrowthTelescopes(g: seq<Option<real>>, q: seq<real>, n: nat)
    requires Positive(q) && n < |q| && n <= |g|
    requires forall k :: 0 <= k < n ==> g[k].Some? && 1.0 + g[k].value / Budget == q[k + 1] / q[k]
    ensures GrowthTo(g, n) == q[n] / q[0]
  {
    if n == 0 {
      SelfRatio(q[0]);
    } else {
      GrowthTelescopes(g, q, n - 1);
      RatioChain(q[0], q[n - 1], q[n]);
    }
  }

  /** At zero commissions, a gain as a growth factor is the ratio of the prices at its two marks. */
  lemma GrowthAt(prices: seq<real>, mask: seq<bool>, k: nat)
    requires |prices| == |mask| && Positive(prices) && k + 1 < |Marks(mask)|
    ensures 1.0 + GainsOf(prices, mask, 0.0)[k].value / Budget == prices[Marks(mask)[k + 1]] / prices[Marks(mask)[k]]
  {
    GainAt(prices, mask, 0.0, k);
  }

  /**
   * At zero commissions, the gains of a policy as factors 1 + g / Budget
   * compound to the price ratio from its first mark to its last.
   */
  lemma GainsCompound(prices: seq<real>, mask: seq<bool>)
    requires |prices| == |mask| && Positive(prices) && |Marks(mask)| > 0
    ensures var m := Marks(mask);
      GrowthTo(GainsOf(prices, mask, 0.0), |m|) == prices[m[|m| - 1]] / prices[m[0]]
  {
    var m := Marks(mask);
    var g, q := GainsOf(prices, mask, 0.0), Pick(prices, m);
    forall k | 0 <= k < |m| - 1
      ensures g[k].Some? && 1.0 + g[k].value / Budget == q[k + 1] / q[k]
    {
      GrowthAt(prices, mask, k);
    }
    GrowthTelescopes(g, q, |m| - 1);
    assert GrowthTo(g, |m|) == GrowthTo(g, |m| - 1);
  }

  /** With at most one mark no gain is defined: the winning score is minus the buy-and-hold return. */
  lemma WinningWithoutPair(prices: seq<real>, mask: seq<bool>, commissions: real)
    requires |prices| == |mask| && |prices| > 0 && Positive(prices) && |Marks(mask)| <= 1
    ensures Winning(prices, mask, commissions) == -BuyAndHold(prices)
  {
    GainsWithoutPair(prices, mask, commissions);
  }

  /** With at most one mark the score against any baseline is minus the baseline's return in percent. */
  lemma WinningScoreWithoutPair(prices: seq<real>, mask: seq<bool>, commissions: real, baseline: seq<real>)
    requires |prices| == |mask| && Positive(prices) && |Marks(mask)| <= 1
    requires |baseline| > 0 && Positive(baseline)
    ensures WinningScore(GainsOf(prices, mask, commissions), baseline) == -BuyAndHold(baseline)
  {
    GainsWithoutPair(prices, mask, commissions);
  }

  /** With at most one mark no gain is defined, so the gains sum to zero. */
  lemma GainsWithoutPair(prices: seq<real>, mask: seq<bool>, commissions: real)
    requires |prices| == |mask| && Positive(prices) && |Marks(mask)| <= 1
    ensures SumDefined(GainsOf(prices, mask, commissions)) == 0.0
  {
    var g := GainsOf(prices, mask, commissions);
    if |g| == 1 {
      assert g[0].None?;
      assert SumTo(g, 1) == SumTo(g, 0);
    }
  }

  /**
   * A policy whose only marks are the first and the last bar holds for the
   * whole series: its winning score is exactly the two commissions it pays.
   */
  lemma WinningBuyAndHold(prices: seq<real>, mask: seq<bool>, commissions: real)
    requires |prices| == |mask| && |prices| >= 2 && Positive(prices)
    requires Marks(mask) == [0, |prices| - 1]
    ensures Winning(prices, mask, commissions) == -commissions * 2.0 * Budget
  {
    var g := GainsOf(prices, mask, commissions);
    GainAt(prices, mask, commissions, 0);
    assert SumDefined(g) == SumTo(g, 1);
  }
}
