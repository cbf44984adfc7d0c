/**
 * The policy cycle of the Ultimate oscillator strategy (utils/technical.py,
 * `ultimate`): one left-to-right pass over the bars where a buy edge or a sell
 * edge fires, with a token that is either flat or holding. A buy edge opens
 * while flat, a sell edge closes while holding, everything else is ignored, and
 * a position still open at the end stays open.
 *
 * `Prefix` is the pass over the first bars (the marks so far and the token),
 * `Policy` the finished pass, and `PolicyLoop` the loop itself over the
 * preallocated policy buffer. The lemmas characterise the pass without
 * reference to the token: a bar is marked exactly when it carries the kind of
 * edge that the parity of the earlier marks awaits, and that rule alone
 * determines the mask.
 */
module Cycle {
  import opened Mask

  /** The source's `token`: 1 is Flat, 0 is Holding. */
  datatype Position = Flat | Holding

  /** A finished pass: the policy mask and the position left at the end. */
  datatype Run = Run(mask: seq<bool>, last: Position)

  function Flip(p: Position): Position {
    if p == Flat then Holding else Flat
  }

  /** The position after n actions taken from flat. */
  function Parity(n: nat): Position {
    if n == 0 then Flat else Flip(Parity(n - 1))
  }

  /** n actions from flat leave the position flat exactly when n is even. */
  lemma {:induction false} ParityEven(n: nat)
    ensures Parity(n) == Flat <==> n % 2 == 0
  {
    if n > 0 {
      ParityEven(n - 1);
    }
  }

  /** The edges that can trigger an action while in p: buy edges while flat, sell edges while holding. */
  function Awaited(buys: seq<bool>, sells: seq<bool>, p: Position): seq<bool> {
    if p == Flat then buys else sells
  }

  /** One bar of the loop body: the `if`/`elif` on the token fires (and marks the bar) on a buy while flat or a sell while holding. */
  function Acts(p: Position, buy: bool, sell: bool): bool {
    (p == Flat && buy) || (p == Holding && sell)
  }

  /** The token after one bar: a firing branch flips it, otherwise it is kept. */
  function Next(p: Position, buy: bool, sell: bool): Position {
    if Acts(p, buy, sell) then Flip(p) else p
  }

  /** A bar is marked exactly when it carries an awaited edge. */
  lemma ActsOnAwaited(buys: seq<bool>, sells: seq<bool>, p: Position, i: nat)
    requires |buys| == |sells| && i < |buys|
    ensures Acts(p, buys[i], sells[i]) == Awaited(buys, sells, p)[i]
  {
  }

  /** The pass over the first i bars: the policy marks so far and the token handed to bar i. */
  function Prefix(buys: seq<bool>, sells: seq<bool>, i: nat): (r: Run)
    requires |buys| == |sells| && i <= |buys|
    ensures |r.mask| == i
  {
    if i == 0 then Run([], Flat)
    else
      var r := Prefix(buys, sells, i - 1);
      Run(r.mask + [Acts(r.last, buys[i - 1], sells[i - 1])], Next(r.last, buys[i - 1], sells[i - 1]))
  }

  /** The whole pass: one policy entry per bar, and the token left at the end. */
  function Policy(buys: seq<bool>, sells: seq<bool>): (r: Run)
    requires |buys| == |sells|
    ensures |r.mask| == |buys|
  {
    Prefix(buys, sells, |buys|)
  }

  /**
   * The loop as the source runs it: a zero-filled policy buffer, a token, and
   * a visit of every bar where a buy or a sell edge fires.
   */
  method PolicyLoop(buys: seq<bool>, sells: seq<bool>) returns (mask: seq<bool>, last: Position)
    requires |buys| == |sells|
    ensures Run(mask, last) == Policy(buys, sells)
  {
    var n := |buys|;
    var policy := new bool[n](_ => false);
    var token := Flat;
    for i := 0 to n
      invariant Prefix(buys, sells, i) == Run(policy[..i], token)
      invariant forall j :: i <= j < n ==> !policy[j]
    {
      if buys[i] || sells[i] {
        if token == Flat && buys[i] {
          policy[i] := true;
          token := Holding;
        } else if token == Holding && sells[i] {
          policy[i] := true;
          token := Flat;
        }
      }
      assert policy[..i + 1] == policy[..i] + [policy[i]];
    }
    assert policy[..] == policy[..n];
    mask, last := policy[..], token;
  }

  /** The pass over more bars extends the pass over fewer: bar i is marked as it was when first reached. */
  lemma {:induction false} PrefixExtends(buys: seq<bool>, sells: seq<bool>, i: nat, j: nat)
    requires |buys| == |sells| && i < j <= |buys|
    decreases j
    ensures Prefix(buys, sells, j).mask[..i] == Prefix(buys, sells, i).mask
    ensures Prefix(buys, sells, j).mask[i] == Acts(Prefix(buys, sells, i).last, buys[i], sells[i])
  {
    if j > i + 1 {
      PrefixExtends(buys, sells, i, j - 1);
      var r := Prefix(buys, sells, j - 1).mask;
      assert Prefix(buys, sells, j).mask[..j - 1] == r;
    } else {
      assert Prefix(buys, sells, j).mask[..i] == Prefix(buys, sells, i).mask;
    }
  }

  /** The token handed on after i bars is flat exactly when those bars hold an even number of marks. */
  lemma {:induction false} PrefixParity(buys: seq<bool>, sells: seq<bool>, i: nat)
    requires |buys| == |sells| && i <= |buys|
    ensures Prefix(buys, sells, i).last == Parity(Count(Prefix(buys, sells, i).mask))
  {
    if i > 0 {
      var r := Prefix(buys, sells, i - 1);
      var b := Acts(r.last, buys[i - 1], sells[i - 1]);
      PrefixParity(buys, sells, i - 1);
      CountSnoc(r.mask, b);
      assert Prefix(buys, sells, i) == Run(r.mask + [b], Next(r.last, buys[i - 1], sells[i - 1]));
      if b {
        assert Parity(Count(r.mask) + 1) == Flip(Parity(Count(r.mask)));
      }
    }
  }

  /**
   * Greedy choice, both ways: bar j is marked exactly when it carries a buy
   * edge after an even number of earlier marks (flat) or a sell edge after an
   * odd number (holding). So the first mark is the first buy edge, each open is
   * followed by the first sell edge after it, each close by the first buy edge
   * after it, and an unmarked bar never carries the awaited edge.
   */
  lemma PolicyGreedy(buys: seq<bool>, sells: seq<bool>)
    requires |buys| == |sells|
    ensures var mask := Policy(buys, sells).mask;
      forall j :: 0 <= j < |buys| ==>
        (mask[j] <==> if Count(mask[..j]) % 2 == 0 then buys[j] else sells[j])
  {
    var mask := Policy(buys, sells).mask;
    forall j | 0 <= j < |buys|
      ensures mask[j] <==> if Count(mask[..j]) % 2 == 0 then buys[j] else sells[j]
    {
      GreedyAt(buys, sells, j);
    }
  }

  /** A mask obeying the greedy rule agrees with the pass over every prefix. */
  lemma {:induction false} GreedyRulePrefix(buys: seq<bool>, sells: seq<bool>, m: seq<bool>, i: nat)
    requires |buys| == |sells| && |m| == |buys| && i <= |m|
    requires forall j {:trigger Count(m[..j])} :: 0 <= j < |m| ==> (m[j] <==> if Count(m[..j]) % 2 == 0 then buys[j] else sells[j])
    ensures m[..i] == Prefix(buys, sells, i).mask
  {
    if i > 0 {
      var r := Prefix(buys, sells, i - 1);
      GreedyRulePrefix(buys, sells, m, i - 1);
      PrefixParity(buys, sells, i - 1);
      ParityEven(Count(r.mask));
      ActsOnAwaited(buys, sells, r.last, i - 1);
      assert m[i - 1] <==> if Count(m[..i - 1]) % 2 == 0 then buys[i - 1] else sells[i - 1];
      PrefixSnoc(m, i - 1);
    }
  }

  /** Any mask obeying the greedy rule is the policy mask: the rule alone determines the pass. */
  lemma PolicyUnique(buys: seq<bool>, sells: seq<bool>, m: seq<bool>)
    requires |buys| == |sells| && |m| == |buys|
    requires forall j {:trigger Count(m[..j])} :: 0 <= j < |m| ==> (m[j] <==> if Count(m[..j]) % 2 == 0 then buys[j] else sells[j])
    ensures m == Policy(buys, sells).mask
  {
    GreedyRulePrefix(buys, sells, m, |m|);
    assert m[..|m|] == m;
  }

  /** The policy marks only bars where a buy or a sell edge fires. */
  lemma PolicyMarksOnlyEdges(buys: seq<bool>, sells: seq<bool>)
    requires |buys| == |sells|
    ensures forall i :: 0 <= i < |buys| && Policy(buys, sells).mask[i] ==> buys[i] || sells[i]
  {
    PolicyGreedy(buys, sells);
  }

  /**
   * Marks strictly alternate: the k-th mark of the policy (from 0) lies on a
   * buy edge when k is even and on a sell edge when k is odd.
   */
  lemma PolicyAlternates(buys: seq<bool>, sells: seq<bool>)
    requires |buys| == |sells|
    ensures var m := Marks(Policy(buys, sells).mask);
      forall k :: 0 <= k < |m| ==> if k % 2 == 0 then buys[m[k]] else sells[m[k]]
  {
    var mask := Policy(buys, sells).mask;
    PolicyGreedy(buys, sells);
    MarksRank(mask);
  }

  /**
   * After the pass the position is flat exactly when the number of marks is
   * even; an odd count leaves a trailing open with no forced close.
   */
  lemma PolicyEndsByParity(buys: seq<bool>, sells: seq<bool>)
    requires |buys| == |sells|
    ensures Policy(buys, sells).last == Flat <==> |Marks(Policy(buys, sells).mask)| % 2 == 0
  {
    var mask := Policy(buys, sells).mask;
    PrefixParity(buys, sells, |buys|);
    ParityEven(Count(mask));
    MarksRank(mask);
  }

  /** Greedy choice at one bar j. */
  lemma GreedyAt(buys: seq<bool>, sells: seq<bool>, j: nat)
    requires |buys| == |sells| && j < |buys|
    ensures var mask := Policy(buys, sells).mask;
      mask[j] <==> if Count(mask[..j]) % 2 == 0 then buys[j] else sells[j]
  {
    PrefixExtends(buys, sells, j, |buys|);
    PrefixParity(buys, sells, j);
    ParityEven(Count(Policy(buys, sells).mask[..j]));
    ActsOnAwaited(buys, sells, Prefix(buys, sells, j).last, j);
  }

  /** A bar j after the k-th mark and before the next one (if any) carries no edge of the kind awaited after k + 1 marks. */
  lemma GapAfterMark(buys: seq<bool>, sells: seq<bool>, k: nat, j: nat)
    requires |buys| == |sells|
    requires var r := Marks(Policy(buys, sells).mask);
      k < |r| && r[k] < j < |buys| && (k + 1 < |r| ==> j < r[k + 1])
    ensures if k % 2 == 0 then !sells[j] else !buys[j]
  {
    var mask := Policy(buys, sells).mask;
    CountAfterMark(mask, k, j);
    CountAfterMark(mask, k, j + 1);
    CountPrefixStep(mask, j);
    GreedyAt(buys, sells, j);
  }

  /** A bar before the first mark (or anywhere, if there is none) carries no buy edge. */
  lemma GapBeforeFirst(buys: seq<bool>, sells: seq<bool>, j: nat)
    requires |buys| == |sells|
    requires var r := Marks(Policy(buys, sells).mask);
      j < (if |r| == 0 then |buys| else r[0])
    ensures !buys[j]
  {
    var mask := Policy(buys, sells).mask;
    CountBeforeFirst(mask, j);
    CountBeforeFirst(mask, j + 1);
    CountPrefixStep(mask, j);
    GreedyAt(buys, sells, j);
  }

  /**
   * Greedy choice, mark by mark: no buy edge precedes the first mark, after an
   * open (even k) no sell edge comes before the next mark, after a close (odd
   * k) no buy edge does, and after the last mark no edge of the awaited kind
   * is left. So each mark is the first awaited edge after the one before it.
   */
  lemma PolicyNextIsFirst(buys: seq<bool>, sells: seq<bool>)
    requires |buys| == |sells|
    ensures var r := Marks(Policy(buys, sells).mask);
      (forall j :: 0 <= j < (if |r| == 0 then |buys| else r[0]) ==> !buys[j]) &&
      (forall k, j :: 0 <= k < |r| - 1 && r[k] < j < r[k + 1] ==> if k % 2 == 0 then !sells[j] else !buys[j]) &&
      (|r| > 0 ==> forall j :: r[|r| - 1] < j < |buys| ==> if (|r| - 1) % 2 == 0 then !sells[j] else !buys[j])
  {
    var r := Marks(Policy(buys, sells).mask);
    forall j | 0 <= j < (if |r| == 0 then |buys| else r[0])
      ensures !buys[j]
    {
      GapBeforeFirst(buys, sells, j);
    }
    forall k, j | 0 <= k < |r| - 1 && r[k] < j < r[k + 1]
      ensures if k % 2 == 0 then !sells[j] else !buys[j]
    {
      GapAfterMark(buys, sells, k, j);
    }
    if |r| > 0 {
      forall j | r[|r| - 1] < j < |buys|
        ensures if (|r| - 1) % 2 == 0 then !sells[j] else !buys[j]
      {
        GapAfterMark(buys, sells, |r| - 1, j);
      }
    }
  }

  /** Without any buy edge the pass stays flat and marks nothing: sell edges while flat are ignored. */
  lemma {:induction false} PrefixIdleWithoutBuys(buys: seq<bool>, sells: seq<bool>, i: nat)
    requires |buys| == |sells| && i <= |buys|
    requires forall j :: 0 <= j < |buys| ==> !buys[j]
    ensures Prefix(buys, sells, i).last == Flat
    ensures forall j :: 0 <= j < i ==> !Prefix(buys, sells, i).mask[j]
  {
    if i > 0 {
      PrefixIdleWithoutBuys(buys, sells, i - 1);
    }
  }
}
