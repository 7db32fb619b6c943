/** Python's `min`, `max` and `sorted` over the integer frame ids that key a
    track, and the counting facts the anomaly checks rely on. */
module Keys {
  import opened Common

  /** Every element of `s` is at least `m`. */
  predicate IsLowerBound(s: set<int>, m: int)
  {
    forall x :: x in s ==> m <= x
  }

  /** Every element of `s` is at most `m`. */
  predicate IsUpperBound(s: set<int>, m: int)
  {
    forall x :: x in s ==> x <= m
  }

  lemma {:induction false} MinExists(s: set<int>)
    requires s != {}
    ensures exists m :: m in s && IsLowerBound(s, m)
    decreases |s|
  {
    var x := Pick(s);
    if s != {x} {
      MinExists(s - {x});
      var m :| m in s - {x} && IsLowerBound(s - {x}, m);
      var least := if x < m then x else m;
      forall y | y in s
        ensures least <= y
      {
        if y != x {
          assert y in s - {x};
        }
      }
      assert least in s && IsLowerBound(s, least);
    } else {
      assert IsLowerBound(s, x);
    }
  }

  lemma {:induction false} MaxExists(s: set<int>)
    requires s != {}
    ensures exists m :: m in s && IsUpperBound(s, m)
    decreases |s|
  {
    var x := Pick(s);
    if s != {x} {
      MaxExists(s - {x});
      var m :| m in s - {x} && IsUpperBound(s - {x}, m);
      var greatest := if x > m then x else m;
      forall y | y in s
        ensures y <= greatest
      {
        if y != x {
          assert y in s - {x};
        }
      }
      assert greatest in s && IsUpperBound(s, greatest);
    } else {
      assert IsUpperBound(s, x);
    }
  }

  /** `min(keys)`; Python raises `ValueError` on an empty collection. */
  function Min(s: set<int>): (m: int)
    requires s != {}
    ensures m in s && IsLowerBound(s, m)
  {
    MinExists(s);
    var m :| m in s && IsLowerBound(s, m);
    m
  }

  /** `max(keys)`; Python raises `ValueError` on an empty collection. */
  function Max(s: set<int>): (m: int)
    requires s != {}
    ensures m in s && IsUpperBound(s, m)
  {
    MaxExists(s);
    var m :| m in s && IsUpperBound(s, m);
    m
  }

  /** Strictly ascending, hence free of duplicates. */
  ghost predicate StrictlyIncreasing(xs: seq<int>)
  {
    forall i, j :: 0 <= i < j < |xs| ==> xs[i] < xs[j]
  }

  /** Taking one element out of a set shrinks it by one. */
  lemma RemoveOne(s: set<int>, x: int)
    requires x in s
    ensures |s - {x}| == |s| - 1
  {
  }

  /** `sorted(list(keys))`. */
  function Sorted(s: set<int>): (xs: seq<int>)
    ensures |xs| == |s|
    ensures forall x :: x in xs <==> x in s
    ensures StrictlyIncreasing(xs)
    decreases |s|
  {
    if s == {} then []
    else
      var m := Min(s);
      RemoveOne(s, m);
      [m] + Sorted(s - {m})
  }

  /** The integers `lo, lo + 1, ..., hi`, i.e. `range(lo, hi + 1)`. */
  function Range(lo: int, hi: int): (r: set<int>)
    ensures forall x :: x in r <==> lo <= x <= hi
    ensures lo <= hi + 1 ==> |r| == hi - lo + 1
    decreases hi - lo
  {
    if lo > hi then {} else Range(lo, hi - 1) + {hi}
  }

  /** How many ids between `min(s)` and `max(s)` a set of distinct integers
      would hold if it had no gap: `max - min + 1`. */
  function ExpectedSize(s: set<int>): (n: int)
    requires s != {}
    ensures n >= 1
  {
    Max(s) - Min(s) + 1
  }

  /** A set of distinct integers never holds more than its span, and it holds
      fewer exactly when some id between its minimum and maximum is absent. */
  lemma {:induction false} GapIffShort(s: set<int>)
    requires s != {}
    ensures |s| <= ExpectedSize(s)
    ensures |s| < ExpectedSize(s) <==> exists f :: Min(s) <= f <= Max(s) && f !in s
  {
    var lo, hi := Min(s), Max(s);
    assert s <= Range(lo, hi);
    if f :| lo <= f <= hi && f !in s {
      var rest := Range(lo, hi) - {f};
      assert s <= rest;
      assert |rest| == |Range(lo, hi)| - 1;
      SubsetSize(s, rest);
    } else {
      assert Range(lo, hi) <= s;
      assert s == Range(lo, hi);
    }
  }

  /** The number of ids in `[min(s), max(s)]` that are absent from `s`: what the
      missing-frames check logs, given as the size of the gap set. */
  lemma {:induction false} GapCount(s: set<int>)
    requires s != {}
    ensures ExpectedSize(s) - |s| == |Range(Min(s), Max(s)) - s|
  {
    var lo, hi := Min(s), Max(s);
    assert s <= Range(lo, hi);
    assert Range(lo, hi) == (Range(lo, hi) - s) + s;
    assert (Range(lo, hi) - s) !! s;
  }
}
