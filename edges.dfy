/**
 * Edge detection: a boolean "condition holds" series becomes an "event just
 * occurred" series, true at every bar where the condition flips
 * (utils/technical.py, `cond.shift(1) != cond`).
 *
 * pandas' `shift(1)` puts NaN at bar 0 and `NaN != x` is true, so the
 * expression as written marks bar 0 whatever the condition is there; that is
 * `ShiftCompare`. The patch in `macd` (`if positive.iloc[0]: policy.iloc[0] = 1`)
 * shows the intent, bar 0 is an edge exactly when the condition already holds
 * there; that is `Edges`, which the rest of the model uses.
 */
module EdgeDetection {
  import opened Mask

  /** `c.shift(1) != c` as pandas evaluates it, NaN at bar 0 included. */
  function ShiftCompare(c: seq<bool>): (e: seq<bool>)
    ensures |e| == |c|
    ensures |c| > 0 ==> e[0]
    ensures forall i {:trigger e[i]} :: 0 < i < |c| ==> e[i] == (c[i] != c[i - 1])
  {
    seq(|c|, i requires 0 <= i < |c| => i == 0 || c[i] != c[i - 1])
  }

  /**
   * The macd policy as written: the shift comparison, then the in-place patch
   * of bar 0. The patch never changes anything, bar 0 is already marked.
   */
  function MacdPolicyAsWritten(c: seq<bool>): (e: seq<bool>)
    ensures e == ShiftCompare(c)
    ensures |c| > 0 ==> e[0]
  {
    var raw := ShiftCompare(c);
    if |c| > 0 && c[0] then raw[0 := true] else raw
  }

  /** The edge series as intended: bar 0 takes the condition's own value. */
  function Edges(c: seq<bool>): (e: seq<bool>)
    ensures |e| == |c|
    ensures |c| > 0 ==> e[0] == c[0]
    ensures forall i {:trigger e[i]} :: 0 < i < |c| ==> e[i] == (c[i] != c[i - 1])
  {
    if |c| == 0 then [] else ShiftCompare(c)[0 := c[0]]
  }

  /** The condition's value just before bar i; before the series it is taken as false. */
  function LevelBefore(c: seq<bool>, i: nat): bool
    requires i <= |c|
  {
    if i == 0 then false else c[i - 1]
  }

  /** Unfolding MarksFrom over the edges of c at bar i, and what an edge or its absence says there. */
  lemma EdgesStep(c: seq<bool>, i: nat)
    requires i < |c|
    ensures LevelBefore(c, i + 1) == c[i]
    ensures Edges(c)[i] ==> MarksFrom(Edges(c), i) == [i] + MarksFrom(Edges(c), i + 1) && c[i] != LevelBefore(c, i)
    ensures !Edges(c)[i] ==> MarksFrom(Edges(c), i) == MarksFrom(Edges(c), i + 1) && c[i] == LevelBefore(c, i)
  {
  }

  /** From bar i on, the k-th edge switches the condition away from its level before i when k is even, back when k is odd. */
  lemma {:induction false} EdgesFlipLevel(c: seq<bool>, i: nat)
    requires i <= |c|
    decreases |c| - i
    ensures forall k :: 0 <= k < |MarksFrom(Edges(c), i)| ==>
      c[MarksFrom(Edges(c), i)[k]] == (LevelBefore(c, i) != (k % 2 == 0))
  {
    if i < |c| {
      EdgesFlipLevel(c, i + 1);
      EdgesStep(c, i);
      var m, rest := MarksFrom(Edges(c), i), MarksFrom(Edges(c), i + 1);
      if Edges(c)[i] {
        forall k | 0 <= k < |m|
          ensures c[m[k]] == (LevelBefore(c, i) != (k % 2 == 0))
        {
          if k > 0 { assert m[k] == rest[k - 1]; }
        }
      }
    }
  }

  /** Before the first edge at or after bar i (or to the end if there is none) the condition keeps its level before i. */
  lemma {:induction false} EdgesKeepLevel(c: seq<bool>, i: nat)
    requires i <= |c|
    decreases |c| - i
    ensures var m := MarksFrom(Edges(c), i);
      forall j :: i <= j < (if |m| == 0 then |c| else m[0]) ==> c[j] == LevelBefore(c, i)
  {
    if i < |c| {
      EdgesStep(c, i);
      if !Edges(c)[i] {
        EdgesKeepLevel(c, i + 1);
      }
    }
  }

  /** Between two consecutive edges the condition is constant. */
  lemma {:induction false} EdgesConstantBetween(c: seq<bool>, i: nat)
    requires i <= |c|
    decreases |c| - i
    ensures var m := MarksFrom(Edges(c), i);
      forall k :: 0 <= k < |m| - 1 ==> forall j :: m[k] <= j < m[k + 1] ==> c[j] == c[m[k]]
  {
    if i < |c| {
      EdgesConstantBetween(c, i + 1);
      EdgesStep(c, i);
      var m, rest := MarksFrom(Edges(c), i), MarksFrom(Edges(c), i + 1);
      if Edges(c)[i] {
        EdgesKeepLevel(c, i + 1);
        ConstantBetweenFrom(c, i, rest);
      }
    }
  }

  /**
   * Prepending a mark i to a list of marks keeps the condition constant
   * between consecutive marks, when it is constant from i up to the old first mark.
   */
  lemma ConstantBetweenFrom(c: seq<bool>, i: nat, rest: seq<nat>)
    requires i < |c| && forall k :: 0 <= k < |rest| ==> i < rest[k] < |c|
    requires forall k :: 0 <= k < |rest| - 1 ==> forall j :: rest[k] <= j < rest[k + 1] ==> c[j] == c[rest[k]]
    requires forall j :: i < j < (if |rest| == 0 then |c| else rest[0]) ==> c[j] == c[i]
    ensures var m := [i] + rest;
      forall k :: 0 <= k < |m| - 1 ==> forall j :: m[k] <= j < m[k + 1] ==> c[j] == c[m[k]]
  {
    var m := [i] + rest;
    forall k, j | 0 <= k < |m| - 1 && m[k] <= j < m[k + 1]
      ensures c[j] == c[m[k]]
    {
      if k > 0 {
        assert m[k] == rest[k - 1] && m[k + 1] == rest[k];
      } else {
        assert m[0] == i && m[1] == rest[0];
      }
    }
  }

  /** After the last edge the condition keeps the value it took there. */
  lemma {:induction false} EdgesConstantAfterLast(c: seq<bool>, i: nat)
    requires i <= |c|
    decreases |c| - i
    ensures var m := MarksFrom(Edges(c), i);
      |m| > 0 ==> forall j :: m[|m| - 1] <= j < |c| ==> c[j] == c[m[|m| - 1]]
  {
    if i < |c| {
      EdgesStep(c, i);
      var m, rest := MarksFrom(Edges(c), i), MarksFrom(Edges(c), i + 1);
      if |rest| > 0 {
        EdgesConstantAfterLast(c, i + 1);
        assert m[|m| - 1] == rest[|rest| - 1];
      } else if Edges(c)[i] {
        EdgesKeepLevel(c, i + 1);
      }
    }
  }

  /**
   * The marks of Edges(c) alternate between a rise (the k-th mark for even k,
   * where the condition starts to hold) and a fall (odd k, where it stops), the
   * condition is false before the first mark and constant between marks.
   */
  lemma EdgesAlternate(c: seq<bool>)
    ensures var m := Marks(Edges(c));
      (forall k :: 0 <= k < |m| ==> (c[m[k]] <==> k % 2 == 0)) &&
      (forall j :: 0 <= j < (if |m| == 0 then |c| else m[0]) ==> !c[j]) &&
      (forall k :: 0 <= k < |m| - 1 ==> forall j :: m[k] <= j < m[k + 1] ==> c[j] == c[m[k]]) &&
      (|m| > 0 ==> forall j :: m[|m| - 1] <= j < |c| ==> c[j] == c[m[|m| - 1]])
  {
    EdgesFlipLevel(c, 0);
    EdgesKeepLevel(c, 0);
    EdgesConstantBetween(c, 0);
    EdgesConstantAfterLast(c, 0);
  }

  /**
   * As written, the macd patch never changes anything: bar 0 is already an
   * edge, so with a condition false at bar 0 the first mark falls on a bar
   * where the condition does not hold. Input: c = [false, true].
   */
  lemma MacdPolicyAsWrittenMarksFalseBar()
    ensures var c := [false, true];
      MacdPolicyAsWritten(c) == ShiftCompare(c) &&
      Marks(MacdPolicyAsWritten(c)) == [0, 1] && !c[0] &&
      Marks(Edges(c)) == [1]
  {
    var c := [false, true];
    assert MacdPolicyAsWritten(c) == [true, true];
    assert Edges(c) == [false, true];
    assert MarksFrom([true, true], 2) == [];
    assert MarksFrom([false, true], 2) == [];
  }
}
