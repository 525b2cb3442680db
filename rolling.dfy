/**
 * The trailing moving average `column.rolling(window).mean()`, with the
 * default `min_periods == window`: the average at a position is defined only
 * when the `window` cells ending there all exist and are all present. A
 * window of zero averages no cells, and every average is NaN.
 */
module Rolling {
  import opened Wrappers

  /** The cells `vals[lo..hi]` are all present. */
  predicate AllPresent(vals: seq<Option<int>>, lo: nat, hi: nat)
    requires lo <= hi <= |vals|
  {
    forall k :: lo <= k < hi ==> vals[k].Some?
  }

  /** The sum of `vals[lo..hi]`, or `None` as soon as one cell is missing. */
  function WindowSum(vals: seq<Option<int>>, lo: nat, hi: nat): Option<int>
    requires lo <= hi <= |vals|
    decreases hi - lo
  {
    if lo == hi then Some(0)
    else
      var s := WindowSum(vals, lo, hi - 1);
      if s.Some? && vals[hi - 1].Some? then Some(s.value + vals[hi - 1].value) else None
  }

  /** The moving average at position `i` of the column. */
  function MeanAt(vals: seq<Option<int>>, window: nat, i: nat): Option<real>
    requires i < |vals|
  {
    if window == 0 || i + 1 < window then None
    else
      match WindowSum(vals, i + 1 - window, i + 1)
      case None => None
      case Some(s) => Some(s as real / window as real)
  }

  /** Computes the whole moving-average column, one position at a time. */
  method RollingMean(vals: seq<Option<int>>, window: nat) returns (col: seq<Option<real>>)
    ensures |col| == |vals|
    ensures forall i :: 0 <= i < |vals| ==> col[i] == MeanAt(vals, window, i)
  {
    col := [];
    var i := 0;
    while i < |vals|
      invariant 0 <= i <= |vals| && |col| == i
      invariant forall k :: 0 <= k < i ==> col[k] == MeanAt(vals, window, k)
    {
      var mean: Option<real> := None;
      if window >= 1 && i + 1 >= window {
        var lo := i + 1 - window;
        var sum, complete, j := 0, true, lo;
        while j < i + 1
          invariant lo <= j <= i + 1
          invariant WindowSum(vals, lo, j) == if complete then Some(sum) else None
        {
          if vals[j].None? {
            complete := false;
          } else if complete {
            sum := sum + vals[j].value;
          }
          j := j + 1;
        }
        if complete {
          mean := Some(sum as real / window as real);
        }
      }
      col := col + [mean];
      i := i + 1;
    }
  }

  // ---------------------------------------------------------------------
  // Properties of the moving average

  lemma {:induction false} WindowSumDefined(vals: seq<Option<int>>, lo: nat, hi: nat)
    requires lo <= hi <= |vals|
    ensures WindowSum(vals, lo, hi).Some? <==> AllPresent(vals, lo, hi)
    decreases hi - lo
  {
    if lo < hi {
      WindowSumDefined(vals, lo, hi - 1);
    }
  }

  /** The average is defined exactly when the window is not empty, the
      position has `window - 1` predecessors and none of the `window` cells
      ending there is missing. */
  lemma MeanDefined(vals: seq<Option<int>>, window: nat, i: nat)
    requires i < |vals|
    ensures MeanAt(vals, window, i).Some? <==>
      1 <= window <= i + 1 && AllPresent(vals, i + 1 - window, i + 1)
  {
    if 1 <= window <= i + 1 {
      WindowSumDefined(vals, i + 1 - window, i + 1);
    }
  }

  /** With a window of one, the average is the cell itself. */
  lemma MeanOfSingleWindow(vals: seq<Option<int>>, i: nat)
    requires i < |vals|
    ensures MeanAt(vals, 1, i) == if vals[i].Some? then Some(vals[i].value as real) else None
  {
    assert WindowSum(vals, i, i) == Some(0);
  }

  lemma {:induction false} WindowSumBounds(vals: seq<Option<int>>, lo: nat, hi: nat, least: int, most: int)
    requires lo <= hi <= |vals|
    requires forall k :: lo <= k < hi && vals[k].Some? ==> least <= vals[k].value <= most
    requires WindowSum(vals, lo, hi).Some?
    ensures (hi - lo) * least <= WindowSum(vals, lo, hi).value <= (hi - lo) * most
    decreases hi - lo
  {
    if lo < hi {
      WindowSumBounds(vals, lo, hi - 1, least, most);
      assert (hi - lo) * least == (hi - 1 - lo) * least + least;
      assert (hi - lo) * most == (hi - 1 - lo) * most + most;
    }
  }

  lemma QuotientBounds(s: int, w: nat, least: int, most: int)
    requires w >= 1
    requires w * least <= s <= w * most
    ensures least as real <= s as real / w as real <= most as real
  {
    var q := s as real / w as real;
    assert q * w as real == s as real;
    assert (q - least as real) * w as real == s as real - (w * least) as real;
    assert (most as real - q) * w as real == (w * most) as real - s as real;
  }

  /** A defined average lies between the least and the greatest value of its window. */
  lemma MeanWithinBounds(vals: seq<Option<int>>, window: nat, i: nat, least: int, most: int)
    requires i < |vals|
    requires forall k :: 0 <= k <= i && k + window > i && vals[k].Some? ==> least <= vals[k].value <= most
    requires MeanAt(vals, window, i).Some?
    ensures least as real <= MeanAt(vals, window, i).value <= most as real
  {
    var lo := i + 1 - window;
    WindowSumBounds(vals, lo, i + 1, least, most);
    QuotientBounds(WindowSum(vals, lo, i + 1).value, window, least, most);
  }
}
