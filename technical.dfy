/**
 * The two indicator entry points of utils/technical.py, `macd` and
 * `ultimate`, in the modes their flags select: the raw indicator, the action
 * mask (`strategy`), the per-mark gains (`getgains`) and the winning score
 * (`winning`). The indicator series themselves (rolling means and sums) are
 * inputs here; what is modelled is everything done with them.
 *
 * A series is its index (timestamps, one per bar) together with its values,
 * aligned position by position. pandas raises where the source reads
 * `iloc[0]` or `iloc[-1]` of an empty series; that is `EmptySeries`.
 */
module Technical {
  import opened Wrappers
  import opened Mask
  import opened Index
  import opened EdgeDetection
  import opened Cycle
  import opened Gains

  /** Why a call raises instead of returning. */
  datatype Error =
    | DuplicateIndex  // the ValueError for a repeated timestamp
    | EmptySeries     // an IndexError from `iloc` on an empty series

  /** The three mode flags; when several are set, winning beats strategy beats getgains. */
  datatype Request = Request(strategy: bool, getgains: bool, winning: bool)

  /** What a call returns, by mode. */
  datatype Output =
    | Indicator(values: seq<Option<real>>)  // no flag: the indicator itself
    | Score(score: real)                     // winning
    | Actions(policy: seq<bool>)             // strategy
    | GainSeries(gains: seq<Option<real>>)   // getgains

  /** The default commission per transaction, as a fraction. */
  const DefaultCommissions: real := 0.005

  /** Overbought level of the Ultimate oscillator: above it, the buy condition holds. */
  const BuyLevel: real := 70.0

  /** Oversold level of the Ultimate oscillator: below it, the sell condition holds. */
  const SellLevel: real := 30.0

  /** `macdvalues > 0`; a missing value (NaN) compares false. */
  function MacdPositive(values: seq<Option<real>>): (c: seq<bool>)
    ensures |c| == |values|
    ensures forall i :: 0 <= i < |c| ==> (c[i] <==> values[i].Some? && values[i].value > 0.0)
  {
    seq(|values|, i requires 0 <= i < |values| => values[i].Some? && values[i].value > 0.0)
  }

  /** The macd action mask: the bars where the MACD changes sign (and bar 0 if it starts positive). */
  function MacdPolicy(values: seq<Option<real>>): (e: seq<bool>)
    ensures |e| == |values|
  {
    Edges(MacdPositive(values))
  }

  /** `ult > 70`. */
  function BuyCondition(ult: seq<real>): (c: seq<bool>)
    ensures |c| == |ult|
    ensures forall i :: 0 <= i < |c| ==> (c[i] <==> ult[i] > BuyLevel)
  {
    seq(|ult|, i requires 0 <= i < |ult| => ult[i] > BuyLevel)
  }

  /** `ult < 30`. */
  function SellCondition(ult: seq<real>): (c: seq<bool>)
    ensures |c| == |ult|
    ensures forall i :: 0 <= i < |c| ==> (c[i] <==> ult[i] < SellLevel)
  {
    seq(|ult|, i requires 0 <= i < |ult| => ult[i] < SellLevel)
  }

  /** The Ultimate action mask: the policy pass over the buy and sell edges. */
  function UltimatePolicy(ult: seq<real>): (mask: seq<bool>)
    ensures |mask| == |ult|
  {
    Policy(Edges(BuyCondition(ult)), Edges(SellCondition(ult))).mask
  }

  /**
   * `macd` with its flags: duplicate timestamps raise first; winning and
   * getgains read the first bar of the sign series and raise on an empty one.
   * Only those two modes divide by prices.
   */
  function Macd(index: seq<int>, prices: seq<real>, values: seq<Option<real>>, req: Request, commissions: real): (r: Result<Output, Error>)
    requires |index| == |prices| == |values|
    requires req.winning || (!req.strategy && req.getgains) ==> Positive(prices)
    ensures r.Failure? <==> HasDuplicateIndex(index) || (|prices| == 0 && (req.winning || (!req.strategy && req.getgains)))
    ensures r.Failure? ==> (r.error == DuplicateIndex <==> HasDuplicateIndex(index))
    ensures r.Success? ==>
      (req.winning ==> r.value == Score(Winning(prices, MacdPolicy(values), commissions))) &&
      (!req.winning && req.strategy ==> r.value == Actions(MacdPolicy(values)) && |r.value.policy| == |prices|) &&
      (!req.winning && !req.strategy && req.getgains ==>
        r.value == GainSeries(GainsOf(prices, MacdPolicy(values), commissions)) && |r.value.gains| == |Marks(MacdPolicy(values))|) &&
      (!req.winning && !req.strategy && !req.getgains ==> r.value == Indicator(values))
  {
    if HasDuplicateIndex(index) then Failure(DuplicateIndex)
    else if req.winning then
      if |prices| == 0 then Failure(EmptySeries)
      else Success(Score(Winning(prices, MacdPolicy(values), commissions)))
    else if req.strategy then Success(Actions(MacdPolicy(values)))
    else if req.getgains then
      if |prices| == 0 then Failure(EmptySeries)
      else Success(GainSeries(GainsOf(prices, MacdPolicy(values), commissions)))
    else Success(Indicator(values))
  }

  /** Where the oscillator is defined. */
  function DefinedMask(ult: seq<Option<real>>): (d: seq<bool>)
    ensures |d| == |ult|
    ensures forall i :: 0 <= i < |d| ==> (d[i] <==> ult[i].Some?)
  {
    seq(|ult|, i requires 0 <= i < |ult| => ult[i].Some?)
  }

  /** `ult.dropna()`, as positions: the bars whose oscillator value is defined, in order. */
  function Kept(ult: seq<Option<real>>): (kept: seq<nat>)
    ensures forall k :: 0 <= k < |kept| ==> kept[k] < |ult| && ult[kept[k]].Some?
  {
    Marks(DefinedMask(ult))
  }

  /** `ult.dropna()`, as values: the defined oscillator values, in order. */
  function KeptValues(ult: seq<Option<real>>): (v: seq<real>)
    ensures |v| == |Kept(ult)|
    ensures forall k :: 0 <= k < |v| ==> ult[Kept(ult)[k]] == Some(v[k])
  {
    var kept := Kept(ult);
    seq(|kept|, k requires 0 <= k < |kept| => ult[kept[k]].value)
  }

  /** `dropna` keeps exactly the defined bars, in increasing order. */
  lemma KeptExact(ult: seq<Option<real>>)
    ensures forall i :: 0 <= i < |ult| ==> (i in Kept(ult) <==> ult[i].Some?)
    ensures forall k, l :: 0 <= k < l < |Kept(ult)| ==> Kept(ult)[k] < Kept(ult)[l]
  {
    MarksExact(DefinedMask(ult));
  }

  /** The oscillator values as a series with every entry defined. */
  function AllDefined(ult: seq<real>): (s: seq<Option<real>>)
    ensures |s| == |ult|
    ensures forall i :: 0 <= i < |s| ==> s[i] == Some(ult[i])
  {
    seq(|ult|, i requires 0 <= i < |ult| => Some(ult[i]))
  }

  /**
   * `ultimate`'s winning score (lines 77-80): the gains of the policy over the
   * kept bars, at the prices of those bars, against the buy-and-hold return of
   * the whole price series.
   */
  function UltimateScore(prices: seq<real>, ult: seq<Option<real>>, commissions: real): real
    requires |prices| == |ult| > 0 && Positive(prices)
  {
    WinningScore(GainsOf(Pick(prices, Kept(ult)), UltimatePolicy(KeptValues(ult)), commissions), prices)
  }

  /**
   * `ultimate` with its flags. Duplicate timestamps raise first. The policy
   * runs over the bars left by `dropna`, and the gains use the prices at those
   * bars (`prices.loc[policy.index]`), but the buy-and-hold baseline of the
   * winning score spans the whole price series, warm-up bars included; only
   * that read raises on an empty series. Only winning and getgains divide by
   * prices.
   */
  function Ultimate(index: seq<int>, prices: seq<real>, ult: seq<Option<real>>, req: Request, commissions: real): (r: Result<Output, Error>)
    requires |index| == |prices| == |ult|
    requires req.winning || (!req.strategy && req.getgains) ==> Positive(prices)
    ensures r.Failure? <==> HasDuplicateIndex(index) || (|prices| == 0 && req.winning)
    ensures r.Failure? ==> (r.error == DuplicateIndex <==> HasDuplicateIndex(index))
    ensures r.Success? ==>
      (req.winning ==> r.value == Score(UltimateScore(prices, ult, commissions))) &&
      (!req.winning && req.strategy ==> r.value == Actions(UltimatePolicy(KeptValues(ult))) && |r.value.policy| == |Kept(ult)|) &&
      (!req.winning && !req.strategy && req.getgains ==>
        r.value == GainSeries(GainsOf(Pick(prices, Kept(ult)), UltimatePolicy(KeptValues(ult)), commissions)) &&
        |r.value.gains| == |Marks(UltimatePolicy(KeptValues(ult)))|) &&
      (!req.winning && !req.strategy && !req.getgains ==> r.value == Indicator(AllDefined(KeptValues(ult))))
  {
    var kept, osc := Kept(ult), KeptValues(ult);
    if HasDuplicateIndex(index) then Failure(DuplicateIndex)
    else if !(req.winning || req.strategy || req.getgains) then Success(Indicator(AllDefined(osc)))
    else
      var policy := UltimatePolicy(osc);
      if req.winning then
        if |prices| == 0 then Failure(EmptySeries)
        else Success(Score(UltimateScore(prices, ult, commissions)))
      else if req.strategy then Success(Actions(policy))
      else Success(GainSeries(GainsOf(Pick(prices, kept), policy, commissions)))
  }

  /** `ultimate` as the source runs it: the duplicate check, `dropna`, the token loop over the edges, then the requested output. */
  method UltimateRun(index: seq<int>, prices: seq<real>, ult: seq<Option<real>>, req: Request, commissions: real) returns (r: Result<Output, Error>)
    requires |index| == |prices| == |ult|
    requires req.winning || (!req.strategy && req.getgains) ==> Positive(prices)
    ensures r == Ultimate(index, prices, ult, req, commissions)
  {
    if HasDuplicateIndex(index) {
      return Failure(DuplicateIndex);
    }
    var kept, osc := Kept(ult), KeptValues(ult);
    if !(req.winning || req.strategy || req.getgains) {
      return Success(Indicator(AllDefined(osc)));
    }
    var policy, _ := PolicyLoop(Edges(BuyCondition(osc)), Edges(SellCondition(osc)));
    if req.winning {
      if |prices| == 0 {
        return Failure(EmptySeries);
      }
      r := Success(Score(WinningScore(GainsOf(Pick(prices, kept), policy, commissions), prices)));
    } else if req.strategy {
      r := Success(Actions(policy));
    } else {
      r := Success(GainSeries(GainsOf(Pick(prices, kept), policy, commissions)));
    }
  }

  /**
   * A price series too short for the oscillator (every value NaN, so
   * `dropna` leaves nothing) still gets a winning score: no gains, less the
   * buy-and-hold return over the whole series.
   */
  lemma UltimateWinningBeforeWarmup(index: seq<int>, prices: seq<real>, ult: seq<Option<real>>, commissions: real)
    requires |index| == |prices| == |ult| > 0 && Positive(prices) && !HasDuplicateIndex(index)
    requires forall i :: 0 <= i < |ult| ==> ult[i].None?
    ensures Ultimate(index, prices, ult, Request(false, false, true), commissions) ==
      Success(Score(-BuyAndHold(prices)))
  {
    MarksNone(DefinedMask(ult));
    var kept := Kept(ult);
    var g := GainsOf(Pick(prices, kept), UltimatePolicy(KeptValues(ult)), commissions);
    assert |g| == 0 by {
      MarksRank(UltimatePolicy(KeptValues(ult)));
    }
    assert SumDefined(g) == 0.0;
  }

  /**
   * The winning score of `ultimate` when the policy over the kept bars marks at
   * most one bar: no gain is defined, so the score is minus the buy-and-hold
   * return over the whole price series, warm-up bars included.
   */
  lemma UltimateWinningWithoutPair(prices: seq<real>, ult: seq<Option<real>>, commissions: real)
    requires |prices| == |ult| > 0 && Positive(prices)
    requires |Marks(UltimatePolicy(KeptValues(ult)))| <= 1
    ensures UltimateScore(prices, ult, commissions) == -BuyAndHold(prices)
  {
    WinningScoreWithoutPair(Pick(prices, Kept(ult)), UltimatePolicy(KeptValues(ult)), commissions, prices);
  }

  /**
   * The macd action mask alternates: its k-th mark is a bar where the MACD
   * turns positive when k is even and where it stops being positive when k is
   * odd, and the MACD is not positive before the first mark.
   */
  lemma MacdPolicyAlternates(values: seq<Option<real>>)
    ensures var m := Marks(MacdPolicy(values));
      (forall k :: 0 <= k < |m| ==> (values[m[k]].Some? && values[m[k]].value > 0.0 <==> k % 2 == 0)) &&
      (forall j :: 0 <= j < (if |m| == 0 then |values| else m[0]) ==> !(values[j].Some? && values[j].value > 0.0))
  {
    EdgesAlternate(MacdPositive(values));
  }

  /**
   * The Ultimate action mask opens only where the oscillator crosses the
   * overbought level (or starts above it) and closes only where it crosses
   * the oversold level (or starts below it); opens and closes alternate.
   */
  lemma UltimatePolicyCrossings(ult: seq<real>)
    ensures var m := Marks(UltimatePolicy(ult));
      forall k :: 0 <= k < |m| ==>
        if k % 2 == 0 then
          (if m[k] == 0 then ult[0] > BuyLevel else (ult[m[k]] > BuyLevel) != (ult[m[k] - 1] > BuyLevel))
        else
          (if m[k] == 0 then ult[0] < SellLevel else (ult[m[k]] < SellLevel) != (ult[m[k] - 1] < SellLevel))
  {
    var buys, sells := Edges(BuyCondition(ult)), Edges(SellCondition(ult));
    PolicyAlternates(buys, sells);
  }

  /** With the oscillator never above the overbought level, the Ultimate policy never acts, whatever the sell signals. */
  lemma UltimateIdleWithoutBuySignal(ult: seq<real>)
    requires forall i :: 0 <= i < |ult| ==> ult[i] <= BuyLevel
    ensures forall i :: 0 <= i < |ult| ==> !UltimatePolicy(ult)[i]
  {
    var buys, sells := Edges(BuyCondition(ult)), Edges(SellCondition(ult));
    assert forall i :: 0 <= i < |buys| ==> !buys[i];
    PrefixIdleWithoutBuys(buys, sells, |buys|);
  }

  /**
   * As written, the edge series mark bar 0 unconditionally, so for every
   * non-empty oscillator series the Ultimate loop opens at the first bar.
   */
  lemma UltimatePolicyAsWrittenOpensAtFirstBar(ult: seq<real>)
    requires |ult| > 0
    ensures Policy(ShiftCompare(BuyCondition(ult)), ShiftCompare(SellCondition(ult))).mask[0]
  {
    PrefixExtends(ShiftCompare(BuyCondition(ult)), ShiftCompare(SellCondition(ult)), 0, |ult|);
  }

  /**
   * As written, the edge series mark bar 0 unconditionally, so the Ultimate
   * loop opens at the first bar even when the oscillator there is neutral.
   * Input: ult = [50].
   */
  lemma UltimatePolicyAsWrittenOpensAtNeutralBar()
    ensures var ult := [50.0];
      Policy(ShiftCompare(BuyCondition(ult)), ShiftCompare(SellCondition(ult))).mask == [true] &&
      SellLevel <= ult[0] <= BuyLevel &&
      UltimatePolicy(ult) == [false]
  {
    var ult := [50.0];
    assert BuyCondition(ult) == [false] && SellCondition(ult) == [false];
    assert ShiftCompare([false]) == [true];
    assert Edges([false]) == [false];
    assert Prefix([true], [true], 1).mask == [true];
    assert Prefix([false], [false], 1).mask == [false];
  }

  /**
   * A worked trade: prices 100, 105, 90, 110, 95 with a buy edge at bar 1 and
   * sell edges at bars 2 and 4. The pass opens at 1, closes at 2 and ignores
   * the sell edge at 4 while flat; the one pair of marks gains
   * (90 / 105 - 1 - 0.01) * 100, and the last mark has no gain.
   */
  lemma PolicyScenario()
    ensures var buys, sells := [false, true, false, false, false], [false, false, true, false, true];
      var prices := [100.0, 105.0, 90.0, 110.0, 95.0];
      var mask := Policy(buys, sells).mask;
      mask == [false, true, true, false, false] &&
      GainsOf(prices, mask, DefaultCommissions) == [Some((90.0 / 105.0 - 1.0 - 0.01) * 100.0), None]
  {
    var buys, sells := [false, true, false, false, false], [false, false, true, false, true];
    var prices := [100.0, 105.0, 90.0, 110.0, 95.0];
    assert Prefix(buys, sells, 1) == Run([false], Flat);
    assert Prefix(buys, sells, 2) == Run([false, true], Holding);
    assert Prefix(buys, sells, 3) == Run([false, true, true], Flat);
    assert Prefix(buys, sells, 4) == Run([false, true, true, false], Flat);
    assert Prefix(buys, sells, 5) == Run([false, true, true, false, false], Flat);
    var mask := [false, true, true, false, false];
    assert MarksFrom(mask, 3) == [];
    assert Marks(mask) == [1, 2];
    var g := GainsOf(prices, mask, DefaultCommissions);
    GainAt(prices, mask, DefaultCommissions, 0);
  }
}
