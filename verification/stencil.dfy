/** Counting the visible cells of a 3x3 stencil, independently of how cell
    numbers are split into rows and columns. */
module Stencil {
  import opened Cardinality

  /** The candidates that lie among the cells 1 .. total. */
  function Visible(s: seq<int>, total: int): set<int> {
    set x | x in s && 1 <= x <= total
  }

  /** The surviving candidates of cell k in column col, written relative
      to k. */
  function KeptStencil(k: int, n: int, col: int): seq<int> {
    if col == n - 1 then [k - n - 1, k - n, k - 1, k, k + n - 1, k + n]
    else if col == 0 then [k - n, k - n + 1, k, k + 1, k + n, k + n + 1]
    else [k - n - 1, k - n, k - n + 1, k - 1, k, k + 1, k + n - 1, k + n, k + n + 1]
  }

  predicate Increasing(s: seq<int>) {
    forall i, j :: 0 <= i < j < |s| ==> s[i] < s[j]
  }

  /** When only the elements at positions lo .. hi-1 of an increasing list
      lie in 1 .. total, exactly hi - lo of them are visible. */
  lemma VisibleWindow(s: seq<int>, lo: int, hi: int, total: int)
    requires 0 <= lo <= hi <= |s| && Increasing(s)
    requires lo > 0 ==> s[lo - 1] < 1
    requires lo < hi ==> 1 <= s[lo] && s[hi - 1] <= total
    requires hi < |s| ==> s[hi] > total
    ensures |Visible(s, total)| == hi - lo
  {
    VisibleIsWindow(s, lo, hi, total);
    IncreasingDistinct(s[lo..hi]);
    DistinctSize(s[lo..hi]);
  }

  lemma IncreasingDistinct(s: seq<int>)
    requires Increasing(s)
    ensures Distinct(s)
  {
  }

  lemma VisibleIsWindow(s: seq<int>, lo: int, hi: int, total: int)
    requires 0 <= lo <= hi <= |s| && Increasing(s)
    requires lo > 0 ==> s[lo - 1] < 1
    requires lo < hi ==> 1 <= s[lo] && s[hi - 1] <= total
    requires hi < |s| ==> s[hi] > total
    ensures Visible(s, total) == set x | x in s[lo..hi]
  {
    var w := s[lo..hi];
    forall x | x in s ensures (1 <= x <= total) <==> x in w {
      var i :| 0 <= i < |s| && s[i] == x;
      WindowPosition(s, lo, hi, total, i);
      if lo <= i < hi { assert w[i - lo] == x; }
    }
  }

  lemma WindowPosition(s: seq<int>, lo: int, hi: int, total: int, i: int)
    requires 0 <= lo <= hi <= |s| && Increasing(s)
    requires lo > 0 ==> s[lo - 1] < 1
    requires lo < hi ==> 1 <= s[lo] && s[hi - 1] <= total
    requires hi < |s| ==> s[hi] > total
    requires 0 <= i < |s|
    ensures (1 <= s[i] <= total) <==> lo <= i < hi
  {
    if i < lo {
      assert i == lo - 1 || s[i] < s[lo - 1];
    } else if i < hi {
      assert i == lo || s[lo] < s[i];
      assert i == hi - 1 || s[i] < s[hi - 1];
    } else {
      assert i == hi || s[hi] < s[i];
    }
  }

  /** In the first row the stencil row above falls below cell 1. */
  lemma TopRowSize(k: int, n: int, col: int, total: int)
    requires n >= 2 && 0 <= col < n && k == col + 1 && 2 * n <= total
    ensures |Visible(KeptStencil(k, n, col), total)| == 2 * (if col == 0 || col == n - 1 then 2 else 3)
  {
    if col == 0 || col == n - 1 {
      VisibleWindow(KeptStencil(k, n, col), 2, 6, total);
    } else {
      VisibleWindow(KeptStencil(k, n, col), 3, 9, total);
    }
  }

  /** In the last row the stencil row below lies past the last cell. */
  lemma BottomRowSize(k: int, n: int, col: int, total: int)
    requires n >= 2 && 0 <= col < n && k == total - n + col + 1 && 2 * n <= total
    ensures |Visible(KeptStencil(k, n, col), total)| == 2 * (if col == 0 || col == n - 1 then 2 else 3)
  {
    if col == 0 || col == n - 1 {
      VisibleWindow(KeptStencil(k, n, col), 0, 4, total);
    } else {
      VisibleWindow(KeptStencil(k, n, col), 0, 6, total);
    }
  }

  /** In any other row every kept candidate is a cell. */
  lemma MiddleRowSize(k: int, n: int, col: int, total: int)
    requires n >= 2 && 0 <= col < n
    requires n + col + 1 <= k <= total - 2 * n + col + 1
    ensures |Visible(KeptStencil(k, n, col), total)| == 3 * (if col == 0 || col == n - 1 then 2 else 3)
  {
    VisibleWindow(KeptStencil(k, n, col), 0, |KeptStencil(k, n, col)|, total);
  }
}
