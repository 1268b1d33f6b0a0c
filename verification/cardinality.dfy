/** Facts about the sizes of finite sets of cell indices, used by the board
    and the win condition. */
module Cardinality {

  predicate InRange(x: int, lo: int, hi: int) {
    lo <= x < hi
  }

  /** The integers in the half-open range [lo, hi). */
  function Range(lo: int, hi: int): set<int> {
    set x {:trigger InRange(x, lo, hi)} | lo <= x < hi
  }

  lemma {:induction false} RangeSize(lo: int, hi: int)
    requires lo <= hi
    ensures |Range(lo, hi)| == hi - lo
    decreases hi - lo
  {
    if lo < hi {
      RangeSize(lo, hi - 1);
      assert Range(lo, hi) == Range(lo, hi - 1) + {hi - 1};
    } else {
      assert Range(lo, hi) == {};
    }
  }

  lemma SubsetSize<T>(a: set<T>, b: set<T>)
    requires a <= b
    ensures |a| <= |b|
    ensures |b - a| == |b| - |a|
    ensures |a| == |b| ==> a == b
  {
    assert b == a + (b - a);
    if |a| == |b| {
      assert |b - a| == 0;
    }
  }

  /** No element of the sequence occurs twice. */
  predicate Distinct<T(==)>(s: seq<T>) {
    forall i, j :: 0 <= i < j < |s| ==> s[i] != s[j]
  }

  lemma {:induction false} DistinctSize<T>(s: seq<T>)
    requires Distinct(s)
    ensures |set x | x in s| == |s|
  {
    if s != [] {
      var t := s[..|s| - 1];
      var last := s[|s| - 1];
      assert Distinct(t);
      DistinctSize(t);
      assert (set x | x in s) == (set x | x in t) + {last} by {
        forall x | x in s ensures x in t || x == last {
          var i :| 0 <= i < |s| && s[i] == x;
          if i < |s| - 1 { assert t[i] == x; }
        }
      }
      assert last !in t by {
        forall i | 0 <= i < |t| ensures t[i] != last {
          assert s[i] != s[|s| - 1];
        }
      }
    }
  }
}
