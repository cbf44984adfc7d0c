/**
 * The duplicate-timestamp test both oscillators run before any computation
 * (`prices.index.duplicated().any()`).
 */
module Index {

  /**
   * pandas' `Index.duplicated()` with its default `keep='first'`: an entry is
   * flagged when the same label already occurred earlier in the index.
   */
  function Duplicated<T(==)>(ts: seq<T>): (d: seq<bool>)
    ensures |d| == |ts|
    ensures forall i :: 0 <= i < |ts| ==> (d[i] <==> ts[i] in ts[..i])
  {
    if ts == [] then []
    else
      var init := ts[..|ts| - 1];
      assert forall i :: 0 <= i < |init| ==> init[..i] == ts[..i];
      Duplicated(init) + [ts[|ts| - 1] in init]
  }

  /** `index.duplicated().any()`. */
  predicate HasDuplicateIndex<T(==)>(ts: seq<T>) {
    true in Duplicated(ts)
  }

  /** The index is rejected exactly when two positions carry the same label. */
  lemma DuplicateIndexIff<T>(ts: seq<T>)
    ensures HasDuplicateIndex(ts) <==> exists i, j :: 0 <= i < j < |ts| && ts[i] == ts[j]
  {
    var d := Duplicated(ts);
    if HasDuplicateIndex(ts) {
      var j :| 0 <= j < |d| && d[j];
      var i :| 0 <= i < j && ts[..j][i] == ts[j];
      assert ts[i] == ts[j];
    }
    if exists i, j :: 0 <= i < j < |ts| && ts[i] == ts[j] {
      var i, j :| 0 <= i < j < |ts| && ts[i] == ts[j];
      assert ts[..j][i] == ts[j];
      assert d[j];
    }
  }

  /** A strictly increasing time index (the normal case for price history) is never rejected. */
  lemma IncreasingIndexAccepted(ts: seq<int>)
    requires forall i, j :: 0 <= i < j < |ts| ==> ts[i] < ts[j]
    ensures !HasDuplicateIndex(ts)
  {
    DuplicateIndexIff(ts);
  }
}
