/**
 * Boolean masks over a series and the positions where they hold.
 * `Marks(m)` is the index of `series[m]` in pandas terms, read as positions.
 */
module Mask {

  /** The positions j >= i with m[j], in increasing order. */
  function MarksFrom(m: seq<bool>, i: nat): (r: seq<nat>)
    decreases |m| - i
    ensures forall k :: 0 <= k < |r| ==> i <= r[k] < |m| && m[r[k]]
  {
    if i >= |m| then []
    else if m[i] then [i] + MarksFrom(m, i + 1)
    else MarksFrom(m, i + 1)
  }

  /** The positions of all true entries of m, in increasing order. */
  function Marks(m: seq<bool>): (r: seq<nat>)
    ensures forall k :: 0 <= k < |r| ==> r[k] < |m| && m[r[k]]
  {
    MarksFrom(m, 0)
  }

  /** MarksFrom lists positions in strictly increasing order. */
  lemma {:induction false} MarksFromIncreasing(m: seq<bool>, i: nat)
    decreases |m| - i
    ensures forall k, l :: 0 <= k < l < |MarksFrom(m, i)| ==> MarksFrom(m, i)[k] < MarksFrom(m, i)[l]
  {
    if i < |m| {
      MarksFromIncreasing(m, i + 1);
      var r, rest := MarksFrom(m, i), MarksFrom(m, i + 1);
      if m[i] {
        assert r == [i] + rest;
        forall k, l | 0 <= k < l < |r|
          ensures r[k] < r[l]
        {
          assert r[l] == rest[l - 1];
          if k > 0 { assert r[k] == rest[k - 1]; }
        }
      } else {
        assert r == rest;
      }
    }
  }

  /** Every true position from i on is listed by MarksFrom(m, i). */
  lemma {:induction false} MarksFromComplete(m: seq<bool>, i: nat, j: nat)
    requires i <= j < |m| && m[j]
    decreases j - i
    ensures j in MarksFrom(m, i)
  {
    if i < j {
      MarksFromComplete(m, i + 1, j);
    }
  }

  /** Marks(m) lists exactly the positions where m holds, in strictly increasing order. */
  lemma MarksExact(m: seq<bool>)
    ensures forall j :: 0 <= j < |m| ==> (j in Marks(m) <==> m[j])
    ensures forall k, l :: 0 <= k < l < |Marks(m)| ==> Marks(m)[k] < Marks(m)[l]
  {
    MarksFromIncreasing(m, 0);
    forall j | 0 <= j < |m| && m[j]
      ensures j in Marks(m)
    {
      MarksFromComplete(m, 0, j);
    }
  }

  /** The number of true entries of m. */
  function Count(m: seq<bool>): (n: nat)
    ensures n <= |m|
  {
    if |m| == 0 then 0
    else (if m[0] then 1 else 0) + Count(m[1..])
  }

  /** A mask with no true entry marks nothing. */
  lemma {:induction false} MarksNone(m: seq<bool>)
    requires forall i :: 0 <= i < |m| ==> !m[i]
    ensures Count(m) == 0 && |Marks(m)| == 0
  {
    if |m| > 0 {
      MarksNone(m[1..]);
    }
    MarksRank(m);
  }

  /** Appending one entry adds one to the count exactly when the entry is true. */
  lemma {:induction false} CountSnoc(m: seq<bool>, b: bool)
    ensures Count(m + [b]) == Count(m) + (if b then 1 else 0)
  {
    if |m| > 0 {
      CountSnoc(m[1..], b);
      assert (m + [b])[1..] == m[1..] + [b];
    }
  }

  /** A prefix one longer is the prefix with the next entry appended. */
  lemma PrefixSnoc(m: seq<bool>, i: nat)
    requires i < |m|
    ensures m[..i + 1] == m[..i] + [m[i]]
  {
  }

  /** The count of a prefix grows by the next entry. */
  lemma CountPrefixStep(m: seq<bool>, i: nat)
    requires i < |m|
    ensures Count(m[..i + 1]) == Count(m[..i]) + (if m[i] then 1 else 0)
  {
    PrefixSnoc(m, i);
    CountSnoc(m[..i], m[i]);
  }

  /** MarksFrom(m, i) lists as many positions as m has true entries from i on. */
  lemma {:induction false} MarksFromCount(m: seq<bool>, i: nat)
    requires i <= |m|
    decreases |m| - i
    ensures Count(m[..i]) + |MarksFrom(m, i)| == Count(m)
  {
    if i == |m| {
      assert m[..i] == m;
    } else {
      MarksFromCount(m, i + 1);
      CountPrefixStep(m, i);
    }
  }

  /** The k-th position listed from i has exactly k true entries between i and it. */
  lemma {:induction false} MarksFromRank(m: seq<bool>, i: nat, k: nat)
    requires i <= |m| && k < |MarksFrom(m, i)|
    decreases |m| - i
    ensures Count(m[..MarksFrom(m, i)[k]]) == Count(m[..i]) + k
  {
    var r, rest := MarksFrom(m, i), MarksFrom(m, i + 1);
    CountPrefixStep(m, i);
    if m[i] {
      assert r == [i] + rest;
      if k > 0 {
        assert r[k] == rest[k - 1];
        MarksFromRank(m, i + 1, k - 1);
      }
    } else {
      assert r == rest;
      MarksFromRank(m, i + 1, k);
    }
  }

  /** Marks(m) has one entry per true entry of m, and exactly k true entries precede its k-th entry. */
  lemma MarksRank(m: seq<bool>)
    ensures |Marks(m)| == Count(m)
    ensures forall k :: 0 <= k < |Marks(m)| ==> Count(m[..Marks(m)[k]]) == k
  {
    assert m[..0] == [];
    MarksFromCount(m, 0);
    forall k | 0 <= k < |Marks(m)|
      ensures Count(m[..Marks(m)[k]]) == k
    {
      MarksFromRank(m, 0, k);
    }
  }

  /** No entry of m holds strictly between two consecutive marks, before the first or after the last. */
  lemma MarksGaps(m: seq<bool>)
    ensures var r := Marks(m);
      (forall j :: 0 <= j < (if |r| == 0 then |m| else r[0]) ==> !m[j]) &&
      (forall k, j :: 0 <= k < |r| - 1 && r[k] < j < r[k + 1] ==> !m[j]) &&
      (|r| > 0 ==> forall j :: r[|r| - 1] < j < |m| ==> !m[j])
  {
    var r := Marks(m);
    MarksExact(m);
    forall j | 0 <= j < |m| && m[j]
      ensures exists l :: 0 <= l < |r| && r[l] == j
    {
      assert j in r;
    }
  }

  /** A stretch of false entries leaves the count of the prefix unchanged. */
  lemma {:induction false} CountGap(m: seq<bool>, a: nat, b: nat)
    requires a <= b <= |m|
    requires forall j :: a <= j < b ==> !m[j]
    decreases b - a
    ensures Count(m[..b]) == Count(m[..a])
  {
    if a < b {
      CountPrefixStep(m, a);
      CountGap(m, a + 1, b);
    }
  }

  /** Every prefix ending after the k-th mark and no later than the next one holds k + 1 true entries. */
  lemma CountAfterMark(m: seq<bool>, k: nat, j: nat)
    requires var r := Marks(m);
      k < |r| && r[k] < j <= (if k + 1 < |r| then r[k + 1] else |m|)
    ensures Count(m[..j]) == k + 1
  {
    var r := Marks(m);
    MarksRank(m);
    MarksGaps(m);
    CountPrefixStep(m, r[k]);
    CountGap(m, r[k] + 1, j);
  }

  /** Every prefix ending no later than the first mark holds no true entry. */
  lemma CountBeforeFirst(m: seq<bool>, j: nat)
    requires var r := Marks(m);
      j <= (if |r| == 0 then |m| else r[0])
    ensures Count(m[..j]) == 0
  {
    MarksGaps(m);
    assert m[..0] == [];
    CountGap(m, 0, j);
  }
}
