# Trading-policy core of cryptotrading, in Dafny

This project models the strategy core of `utils/technical.py`: how the MACD and
Ultimate-oscillator strategies turn a raw "condition holds" series into edge
events, how the Ultimate strategy's token loop turns buy and sell edges into an
action mask, how `gains` prices consecutive marks, and how the "winning" score
compares that against buy-and-hold. Both entry points reject a price series
with a repeated timestamp first.

Modules, one file each:

- `Wrappers` (`wrappers.dfy`): `Option` (a pandas NaN is `None`) and `Result`.
- `Mask` (`mask.dfy`): the positions where a boolean mask holds (`series[mask].index`), counted and ranked.
- `Index` (`index.dfy`): `Index.duplicated()` and the duplicate-timestamp rejection.
- `EdgeDetection` (`edges.dfy`): `cond.shift(1) != cond` as written and as intended.
- `Cycle` (`cycle.dfy`): the token loop of `ultimate`. It has:
  - a specification function `Policy`, built from the prefix pass `Prefix`;
  - the loop itself, `PolicyLoop`, a method over a preallocated array;
  - lemmas that describe the mask without mentioning the token.
- `Gains` (`gains.dfy`): `gains`, `Series.sum()` over defined entries, and the winning score.
- `Technical` (`technical.dfy`): `macd` and `ultimate` with their flags, errors and outputs.

The position token is a datatype: `Flat` stands for the source's `token = 1`,
`Holding` for `token = 0`. Prices and indicator values are mathematical reals.

The oscillator of `ultimate` is an input aligned with the prices, `None` where
pandas holds NaN during the warm-up. `ult.dropna()` becomes the list of kept
positions (`Technical.Kept`) and the values there (`Technical.KeptValues`). The
policy runs over the kept bars only, and so do the gains
(`prices.loc[policy.index]`). The buy-and-hold baseline of the winning score
still spans the whole price series.

## Model

| member | source | states |
|---|---|---|
| `Index.Duplicated` | utils/technical.py:16 | entry i is flagged exactly when its timestamp already occurs before position i |
| `Index.DuplicateIndexIff` | utils/technical.py:16-17 | the series is rejected exactly when two positions carry the same timestamp |
| `Index.IncreasingIndexAccepted` | utils/technical.py:51-52 | a strictly increasing time index is never rejected |
| `EdgeDetection.ShiftCompare` | utils/technical.py:21 | as pandas evaluates it: one entry per bar, bar 0 always an edge (NaN compares unequal), every later bar exactly where the condition flips |
| `EdgeDetection.MacdPolicyAsWritten` | utils/technical.py:21-23 | the bar-0 patch changes nothing: for every sign series the result equals the plain shift comparison, and bar 0 is always marked |
| `EdgeDetection.Edges` | utils/technical.py:20-23 | as intended: bar 0 is an edge exactly when the condition holds there, later bars exactly where it flips |
| `EdgeDetection.EdgesAlternate` | utils/technical.py:20-23 | edges alternate between rises (even k) and falls (odd k); the condition is false before the first edge and constant between edges and after the last |
| `EdgeDetection.EdgesFlipLevel` | utils/technical.py:62 | from any bar on, the k-th edge switches the condition away from its earlier level for even k and back for odd k |
| `EdgeDetection.EdgesConstantBetween` | utils/technical.py:64 | the condition is constant between two consecutive edges |
| `EdgeDetection.MacdPolicyAsWrittenMarksFalseBar` | utils/technical.py:21-23 | as written, the bar-0 patch is a no-op: for the sign series [false, true] bar 0 is marked although the MACD is not positive there |
| `Mask.Marks` | utils/technical.py:67 | every listed position is in range and holds in the mask |
| `Mask.MarksExact` | utils/technical.py:96 | the listed positions are exactly the true positions, strictly increasing |
| `Mask.MarksNone` | utils/technical.py:67 | a mask with no true entry lists no position |
| `Mask.MarksRank` | utils/technical.py:96 | one position per true entry; exactly k true entries precede the k-th position |
| `Cycle.Prefix` | utils/technical.py:65-74 | the pass over the first i bars gives one mask entry per bar |
| `Cycle.Policy` | utils/technical.py:65-74 | the finished pass gives one mask entry per bar of the series |
| `Cycle.PolicyLoop` | utils/technical.py:65-74 | the loop over the zero-filled buffer with the token produces exactly the mask and end position of `Policy` |
| `Cycle.ActsOnAwaited` | utils/technical.py:67-73 | the loop body fires at a bar exactly when the bar carries the edge the token awaits: a buy while flat, a sell while holding |
| `Cycle.PrefixParity` | utils/technical.py:66-73 | the token after i bars is flat exactly when those bars hold an even number of marks |
| `Cycle.GreedyAt` | utils/technical.py:67-73 | at bar j, the mask holds exactly when bar j carries a buy edge after an even number of marks or a sell edge after an odd number |
| `Cycle.PolicyGreedy` | utils/technical.py:67-73 | the same greedy rule at every bar, both directions |
| `Cycle.PolicyUnique` | utils/technical.py:67-73 | any mask obeying the greedy rule equals the policy mask, so the rule determines the loop's result |
| `Cycle.PolicyMarksOnlyEdges` | utils/technical.py:67-73 | a bar is marked only where a buy or a sell edge fires |
| `Cycle.PolicyAlternates` | utils/technical.py:66-73 | the k-th mark lies on a buy edge for even k and on a sell edge for odd k |
| `Cycle.PolicyEndsByParity` | utils/technical.py:66-74 | the loop ends flat exactly when the number of marks is even |
| `Cycle.GapBeforeFirst` | utils/technical.py:67-70 | no buy edge comes before the first mark |
| `Cycle.GapAfterMark` | utils/technical.py:67-73 | between the k-th mark and the next, there is no sell edge after an open and no buy edge after a close |
| `Cycle.PolicyNextIsFirst` | utils/technical.py:67-73 | each mark is the first awaited edge after the previous mark, and no awaited edge follows the last mark |
| `Cycle.PrefixIdleWithoutBuys` | utils/technical.py:67-73 | without buy edges the token stays flat and nothing is marked; sell edges while flat are ignored |
| `Gains.GainsOf` | utils/technical.py:95-97 | one entry per mark; every entry but the last is defined |
| `Gains.GainAt` | utils/technical.py:96-97 | entry k is (p[m(k+1)] / p[m(k)] - 1 - 2 * commissions) * 100 for the k-th and (k+1)-th marks |
| `Gains.GainsDefined` | utils/technical.py:96 | n marks give n - 1 defined gains |
| `Gains.CommissionAt` | utils/technical.py:97 | commissions take 2 * commissions * 100 off each defined gain |
| `Gains.CommissionEverywhere` | utils/technical.py:96-97 | the gains with commissions are defined exactly where the commission-free gains are, and are 2 * commissions * 100 less at each |
| `Gains.ChargedProduct` | utils/technical.py:97 | a cost charged once per pair, n times, totals n times the cost |
| `Gains.GainsCommissionCost` | utils/technical.py:97 | the summed gains equal the commission-free sum less 2 * commissions * 100 charged once per consecutive pair of marks |
| `Gains.GrowthAt` | utils/technical.py:96 | at zero commissions, 1 + gain / 100 is the ratio of the two marks' prices |
| `Gains.GainsCompound` | utils/technical.py:95-97 | at zero commissions, the factors 1 + gain / 100 multiply to the ratio of the last mark's price to the first's |
| `Gains.Winning` | utils/technical.py:24-26 | with at least one mark, the score is the commission-free summed gains, less 2 * commissions * 100 per consecutive pair of marks, less the buy-and-hold return of the same series in percent |
| `Gains.WinningWithoutPair` | utils/technical.py:24-26 | with at most one mark, the macd winning score is minus the buy-and-hold return in percent |
| `Gains.GainsWithoutPair` | utils/technical.py:95-97 | with at most one mark no gain is defined, so the gains sum to zero |
| `Gains.WinningScoreWithoutPair` | utils/technical.py:77-80 | with at most one mark, the score against any baseline series is minus that baseline's buy-and-hold return in percent |
| `Gains.WinningBuyAndHold` | utils/technical.py:24-26 | a macd policy marking only the first and the last bar scores exactly minus its two commissions |
| `Technical.MacdPositive` | utils/technical.py:20 | bar i holds exactly when the MACD is defined and positive there; a NaN is not positive |
| `Technical.BuyCondition` | utils/technical.py:61 | bar i holds exactly when the oscillator is above 70 |
| `Technical.SellCondition` | utils/technical.py:63 | bar i holds exactly when the oscillator is below 30 |
| `Technical.MacdPolicy` | utils/technical.py:20-23 | the macd mask has one entry per bar |
| `Technical.UltimatePolicy` | utils/technical.py:60-74 | the Ultimate mask has one entry per bar |
| `Technical.Macd` | utils/technical.py:16-36 | positive prices are needed only in the winning and gains modes; fails exactly on a repeated timestamp, or on an empty series in the winning or gains mode; on success, by flag priority: the winning score is `Gains.Winning` of the macd edge mask, the strategy output is that mask (one entry per bar), the gains output is `Gains.GainsOf` of that mask (one entry per mark), otherwise the indicator itself |
| `Technical.Kept` | utils/technical.py:59 | every position `dropna` keeps is in range and has a defined oscillator value |
| `Technical.KeptValues` | utils/technical.py:59 | one value per kept position, equal to the oscillator there |
| `Technical.KeptExact` | utils/technical.py:59 | `dropna` keeps exactly the defined bars, in increasing order |
| `Technical.AllDefined` | utils/technical.py:59 | the returned oscillator has one entry per kept bar, each defined and equal to the kept value |
| `Technical.Ultimate` | utils/technical.py:51-84 | positive prices are needed only in the winning and gains modes; fails exactly on a repeated timestamp, or on an empty price series in the winning mode; by flag priority: the winning score is `UltimateScore` (gains over the kept bars, baseline over the whole series), the strategy output is `UltimatePolicy` of the kept oscillator values (one entry per kept bar), the gains output is `Gains.GainsOf` of that policy at the kept bars' prices (one entry per mark), and the plain output is the oscillator after `dropna` |
| `Technical.UltimateRun` | utils/technical.py:51-84 | running the duplicate check, `dropna`, the token loop and the requested output gives exactly `Ultimate` |
| `Technical.UltimateWinningWithoutPair` | utils/technical.py:59-80 | when the policy over the kept bars marks at most one bar, `ultimate`'s winning score is minus the buy-and-hold return of the whole price series in percent |
| `Technical.UltimateWinningBeforeWarmup` | utils/technical.py:59-80 | a non-empty price series whose oscillator is NaN at every bar scores minus its whole-series buy-and-hold return in percent, and does not fail |
| `Technical.MacdPolicyAlternates` | utils/technical.py:20-23 | the macd marks alternate between the MACD turning positive (even k) and ceasing to be positive (odd k); it is not positive before the first mark |
| `Technical.UltimatePolicyCrossings` | utils/technical.py:61-73 | opens fall only where the oscillator crosses 70 and closes only where it crosses 30, alternately |
| `Technical.UltimateIdleWithoutBuySignal` | utils/technical.py:61-73 | if the oscillator never exceeds 70, the Ultimate strategy never acts |
| `Technical.UltimatePolicyAsWrittenOpensAtFirstBar` | utils/technical.py:61-74 | as written, every non-empty oscillator series opens a position at its first bar |
| `Technical.UltimatePolicyAsWrittenOpensAtNeutralBar` | utils/technical.py:61-74 | as written, the oscillator [50] opens a position at bar 0; the intended mask is [false] |
| `Technical.PolicyScenario` | utils/technical.py:65-97 | prices 100, 105, 90, 110, 95 with a buy edge at 1 and sell edges at 2 and 4 give the mask [F, T, T, F, F] and the gains [(90/105 - 1 - 0.01) * 100, missing] |

## Left out

- The indicator arithmetic is not modelled: the rolling means of `macd` (line 18) and the oscillator formula of `ultimate` (lines 53-58). Their series are inputs, which also makes `long`, `short` and `days` irrelevant here.
- The label lookups `prices.loc[policy.index]` (line 95) and `policy.loc[idx]` (line 69) are modelled by position. The duplicate check has already run, so each label names one bar.
- Technical.Macd, Technical.Ultimate: in the winning and gains modes every price must be positive, as for `Gains.GainsOf`.
- Floating point: prices, indicator values and gains are reals, with no rounding, infinities or NaN arithmetic. A missing gain is `None`, and `Series.sum()` skips it.
- Gains.GainsOf: requires every price to be positive. pandas would produce an infinity or a NaN at a zero price, and the model does not represent that.
- Gains.GainsOf: the `budget` argument is fixed at its default of 100, the only value either caller uses.
- `buys.loc[idx].all()` (lines 68 and 71) is read as the scalar edge at that bar. The duplicate check has already run, so each label names one bar.
- The policy buffer is a float series compared with 1 at line 74; the model keeps booleans throughout.
- The `macd` strategy branch (lines 28-29) uses the corrected edge series, like the gains and winning branches (see Findings).
- Data loading and the compiled extension with minimum gain, stop-loss and first-opportunity closing are not part of this model. Neither is packaging.

## Findings

| source | as written | input that shows it | evidently intended | confidence | as-written member | corrected member |
|---|---|---|---|---|---|---|
| utils/technical.py:21-23 | `positive.shift(1) != positive` is true at bar 0 (NaN compares unequal), so the patch `if positive.iloc[0]: policy.iloc[0] = 1` never changes anything, and bar 0 is an edge even when the MACD is not positive | MACD sign [false, true]: marks at bars 0 and 1, the first mark on a non-positive bar | bar 0 is an edge exactly when the MACD is positive there, so the marks alternate between turning positive and turning non-positive | high; not executed | `EdgeDetection.MacdPolicyAsWrittenMarksFalseBar` | `EdgeDetection.EdgesAlternate` |
| utils/technical.py:61-64 | `buy.shift(1) != buy` and `sell.shift(1) != sell` are true at bar 0 whatever the oscillator, so the loop opens a position at the first bar | oscillator [50]: the as-written mask is [true], although 50 is neither above 70 nor below 30 | bar 0 is a buy edge only when the oscillator is above 70 there, so opens fall only on crossings of 70 | high; not executed | `Technical.UltimatePolicyAsWrittenOpensAtFirstBar` | `Technical.UltimatePolicyCrossings` |
