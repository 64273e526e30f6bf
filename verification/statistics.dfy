/** The statistics record of the `/analyze` handler, written as the
    mathematical definitions behind the numpy reductions it calls: mean,
    median, population variance, minimum, maximum and count of a non-empty
    grade list. */
module Statistics {

  // ---------------------------------------------------------------------------
  // Sum, minimum, maximum
  // ---------------------------------------------------------------------------

  function Sum(s: seq<real>): real {
    if s == [] then 0.0 else s[0] + Sum(s[1..])
  }

  /** `np.min`: an element of the list no larger than any other. */
  function Min(s: seq<real>): (m: real)
    requires |s| > 0
    ensures m in s
    ensures forall i :: 0 <= i < |s| ==> m <= s[i]
  {
    if |s| == 1 then s[0]
    else
      var rest := Min(s[1..]);
      if s[0] <= rest then s[0] else rest
  }

  /** `np.max`: an element of the list no smaller than any other. */
  function Max(s: seq<real>): (m: real)
    requires |s| > 0
    ensures m in s
    ensures forall i :: 0 <= i < |s| ==> s[i] <= m
  {
    if |s| == 1 then s[0]
    else
      var rest := Max(s[1..]);
      if s[0] >= rest then s[0] else rest
  }

  /** A list whose elements all lie in `[lo, hi]` sums to between `n * lo` and `n * hi`. */
  lemma {:induction false} SumBounds(s: seq<real>, lo: real, hi: real)
    requires forall i :: 0 <= i < |s| ==> lo <= s[i] <= hi
    ensures (|s| as real) * lo <= Sum(s) <= (|s| as real) * hi
  {
    if s != [] {
      SumBounds(s[1..], lo, hi);
    }
  }

  // ---------------------------------------------------------------------------
  // Mean
  // ---------------------------------------------------------------------------

  /** `np.mean`: the sum divided by the count. It is no smaller than some
      grade and no larger than some grade. */
  function Mean(s: seq<real>): (m: real)
    requires |s| > 0
    ensures exists i :: 0 <= i < |s| && s[i] <= m
    ensures exists j :: 0 <= j < |s| && m <= s[j]
  {
    QuotientBounds(s, Min(s), Max(s));
    Sum(s) / (|s| as real)
  }

  /** A list whose elements all lie in `[lo, hi]` has its sum divided by its
      count there too. */
  lemma QuotientBounds(s: seq<real>, lo: real, hi: real)
    requires |s| > 0
    requires forall i :: 0 <= i < |s| ==> lo <= s[i] <= hi
    ensures lo <= Sum(s) / (|s| as real) <= hi
  {
    SumBounds(s, lo, hi);
    DivideBounds(Sum(s), |s| as real, lo, hi);
  }

  /** Dividing by a positive count keeps bounds scaled by that count. */
  lemma DivideBounds(total: real, n: real, lo: real, hi: real)
    requires n > 0.0
    requires n * lo <= total <= n * hi
    ensures lo <= total / n <= hi
  {
    var q := total / n;
    assert q * n == total;
    assert (q - lo) * n == total - n * lo;
    assert (hi - q) * n == n * hi - total;
  }

  /** A list whose elements all lie in `[lo, hi]` has its mean there too. */
  lemma MeanBounds(s: seq<real>, lo: real, hi: real)
    requires |s| > 0
    requires forall i :: 0 <= i < |s| ==> lo <= s[i] <= hi
    ensures lo <= Mean(s) <= hi
  {
    QuotientBounds(s, lo, hi);
  }

  /** The mean times the count gives back the sum. */
  lemma MeanTimesCount(s: seq<real>)
    requires |s| > 0
    ensures Mean(s) * (|s| as real) == Sum(s)
  {
  }

  /** The mean of a list of equal values is that value. */
  lemma ConstantMean(s: seq<real>)
    requires |s| > 0
    requires forall i :: 0 <= i < |s| ==> s[i] == s[0]
    ensures Mean(s) == s[0]
  {
    SumBounds(s, s[0], s[0]);
  }

  // ---------------------------------------------------------------------------
  // Sorting and the median
  // ---------------------------------------------------------------------------

  predicate Sorted(s: seq<real>) {
    forall i, j :: 0 <= i < j < |s| ==> s[i] <= s[j]
  }

  /** A sorted list stays sorted under a new head no larger than its elements. */
  lemma ConsSorted(a: real, t: seq<real>)
    requires Sorted(t)
    requires forall k :: 0 <= k < |t| ==> a <= t[k]
    ensures Sorted([a] + t)
  {
    var r := [a] + t;
    forall i, j | 0 <= i < j < |r| ensures r[i] <= r[j] {
      assert r[j] == t[j - 1];
      if i > 0 { assert r[i] == t[i - 1]; }
    }
  }

  /** The elements of a sorted list's tail, plus one larger value, are all
      bounded below by the head. */
  lemma BoundedByHead(t: seq<real>, x: real, rest: seq<real>)
    requires Sorted(t) && |t| > 0 && t[0] < x
    requires multiset(rest) == multiset(t[1..]) + multiset{x}
    ensures forall k :: 0 <= k < |rest| ==> t[0] <= rest[k]
  {
    forall k | 0 <= k < |rest| ensures t[0] <= rest[k] {
      assert rest[k] in multiset(rest);
      if rest[k] != x {
        assert rest[k] in multiset(t[1..]);
        var i :| 0 <= i < |t[1..]| && t[1..][i] == rest[k];
        assert t[i + 1] == rest[k];
      }
    }
  }

  /** Inserts `x` into a sorted list, keeping it sorted. */
  function Insert(x: real, t: seq<real>): (r: seq<real>)
    requires Sorted(t)
    ensures Sorted(r)
    ensures multiset(r) == multiset(t) + multiset{x}
  {
    if t == [] || x <= t[0] then
      ConsSorted(x, t);
      [x] + t
    else
      assert t == [t[0]] + t[1..];
      var rest := Insert(x, t[1..]);
      BoundedByHead(t, x, rest);
      ConsSorted(t[0], rest);
      assert multiset([t[0]] + rest) == multiset{t[0]} + multiset(rest);
      [t[0]] + rest
  }

  /** A sorted permutation of the list (insertion sort). */
  function Sort(s: seq<real>): (r: seq<real>)
    ensures Sorted(r)
    ensures |r| == |s|
    ensures multiset(r) == multiset(s)
  {
    if s == [] then []
    else
      assert s == [s[0]] + s[1..];
      var r := Insert(s[0], Sort(s[1..]));
      assert |r| == |multiset(r)| == |multiset(s)| == |s|;
      r
  }

  /** A list has only one sorted permutation, so the median below does not
      depend on which sorting algorithm produced it. */
  lemma {:induction false} SortedPermutationUnique(a: seq<real>, b: seq<real>)
    requires Sorted(a) && Sorted(b)
    requires multiset(a) == multiset(b)
    ensures a == b
  {
    assert |a| == |multiset(a)| == |multiset(b)| == |b|;
    if a != [] {
      SortedHeadIsLeast(b, a[0]);
      SortedHeadIsLeast(a, b[0]);
      assert a == [a[0]] + a[1..];
      assert b == [b[0]] + b[1..];
      assert multiset(a[1..]) == multiset(b[1..]) by {
        assert a[0] == b[0];
        assert multiset(a) == multiset{a[0]} + multiset(a[1..]);
        assert multiset(b) == multiset{b[0]} + multiset(b[1..]);
        assert multiset(a[1..]) == multiset(a) - multiset{a[0]};
        assert multiset(b[1..]) == multiset(b) - multiset{b[0]};
      }
      SortedPermutationUnique(a[1..], b[1..]);
    }
  }

  /** The first element of a sorted list is no larger than any of its elements. */
  lemma SortedHeadIsLeast(t: seq<real>, x: real)
    requires Sorted(t)
    requires x in multiset(t)
    ensures t[0] <= x
  {
    var k :| 0 <= k < |t| && t[k] == x;
    if k > 0 {
      assert t[0] <= t[k];
    }
  }

  /** The middle element of a sorted list, or the average of the two middle
      elements when the length is even. */
  function MiddleOf(t: seq<real>): real
    requires |t| > 0
  {
    var h := |t| / 2;
    if |t| % 2 == 1 then t[h] else (t[h - 1] + t[h]) / 2.0
  }

  /** `np.median`: the middle of the sorted list, which lies between the extremes. */
  function Median(s: seq<real>): (m: real)
    requires |s| > 0
    ensures Min(s) <= m <= Max(s)
  {
    var t := Sort(s);
    assert forall k :: 0 <= k < |t| ==> Min(s) <= t[k] <= Max(s) by {
      forall k | 0 <= k < |t| ensures Min(s) <= t[k] <= Max(s) {
        assert t[k] in multiset(s);
        var i :| 0 <= i < |s| && s[i] == t[k];
      }
    }
    MiddleBetween(t, Min(s), Max(s));
    MiddleOf(t)
  }

  /** The median is the middle of every sorted permutation of the list. */
  lemma MedianOfSortedPermutation(s: seq<real>, t: seq<real>)
    requires |s| > 0
    requires Sorted(t) && multiset(t) == multiset(s)
    ensures |t| == |s| && Median(s) == MiddleOf(t)
  {
    assert |t| == |multiset(t)| == |multiset(s)| == |s|;
    SortedPermutationUnique(Sort(s), t);
  }

  /** The middle of a list whose elements lie in `[lo, hi]` lies there too. */
  lemma MiddleBetween(t: seq<real>, lo: real, hi: real)
    requires |t| > 0
    requires forall k :: 0 <= k < |t| ==> lo <= t[k] <= hi
    ensures lo <= MiddleOf(t) <= hi
  {
  }

  // ---------------------------------------------------------------------------
  // Population variance
  // ---------------------------------------------------------------------------

  /** A product, kept behind a function so that the solver treats the square
      of one value as a single term. */
  function Times(a: real, b: real): real {
    a * b
  }

  function Square(d: real): real {
    Times(d, d)
  }

  lemma TimesSign(a: real, b: real)
    ensures a > 0.0 && b > 0.0 ==> Times(a, b) > 0.0
    ensures a < 0.0 && b < 0.0 ==> Times(a, b) > 0.0
    ensures a == 0.0 ==> Times(a, b) == 0.0
  {
  }

  /** A square is never negative, and zero only for zero. */
  lemma SquareSign(d: real)
    ensures Square(d) >= 0.0
    ensures Square(d) == 0.0 <==> d == 0.0
  {
    TimesSign(d, d);
  }

  /** The sum of squared deviations of the list from `m`. */
  function SquaredDeviations(s: seq<real>, m: real): real {
    if s == [] then 0.0 else Square(s[0] - m) + SquaredDeviations(s[1..], m)
  }

  /** The population variance (numpy's default `ddof=0`: divide by `n`). The
      reported standard deviation is its non-negative square root. It is never
      negative, and zero exactly when all grades are equal. */
  function Variance(s: seq<real>): (v: real)
    requires |s| > 0
    ensures v >= 0.0
    ensures v == 0.0 <==> forall i :: 0 <= i < |s| ==> s[i] == s[0]
  {
    var m := Mean(s);
    SquaredDeviationsNonNegative(s, m);
    SquaredDeviationsZeroIff(s, m);
    DivideZeroIff(SquaredDeviations(s, m), |s| as real);
    assert (forall i :: 0 <= i < |s| ==> s[i] == s[0]) ==> m == s[0] by {
      if forall i :: 0 <= i < |s| ==> s[i] == s[0] {
        ConstantMean(s);
      }
    }
    SquaredDeviations(s, m) / (|s| as real)
  }

  lemma {:induction false} SquaredDeviationsNonNegative(s: seq<real>, m: real)
    ensures SquaredDeviations(s, m) >= 0.0
  {
    if s != [] {
      SquaredDeviationsNonNegative(s[1..], m);
      SquareSign(s[0] - m);
    }
  }

  /** The squared deviations vanish exactly when every element equals `m`. */
  lemma {:induction false} SquaredDeviationsZeroIff(s: seq<real>, m: real)
    ensures SquaredDeviations(s, m) == 0.0 <==> forall i :: 0 <= i < |s| ==> s[i] == m
  {
    if s != [] {
      SquaredDeviationsZeroIff(s[1..], m);
      SquaredDeviationsNonNegative(s[1..], m);
      SquareSign(s[0] - m);
      assert (forall i :: 0 <= i < |s| ==> s[i] == m)
         <==> s[0] == m && forall i :: 0 <= i < |s[1..]| ==> s[1..][i] == m;
    }
  }

  lemma DivideZeroIff(x: real, n: real)
    requires n > 0.0
    ensures x / n == 0.0 <==> x == 0.0
  {
  }

  // ---------------------------------------------------------------------------
  // The statistics record
  // ---------------------------------------------------------------------------

  /** The `stats` dictionary, with the variance in place of its square root. */
  datatype Stats = Stats(mean: real, median: real, variance: real, min: real, max: real, count: nat)

  /** The statistics of a non-empty grade list and the invariants they keep. */
  function Describe(g: seq<real>): (st: Stats)
    requires |g| > 0
    ensures st.count == |g|
    ensures st.min in g && st.max in g
    ensures forall i :: 0 <= i < |g| ==> st.min <= g[i] <= st.max
    ensures st.min <= st.mean <= st.max
    ensures st.min <= st.median <= st.max
    ensures st.variance >= 0.0
    ensures st.variance == 0.0 <==> forall i :: 0 <= i < |g| ==> g[i] == g[0]
  {
    Stats(Mean(g), Median(g), Variance(g), Min(g), Max(g), |g|)
  }

  /** `std` is reported as the non-negative root of the variance. */
  ghost predicate IsStdOf(std: real, st: Stats) {
    std >= 0.0 && Square(std) == st.variance
  }

  /** The standard deviation is zero exactly when all grades are equal. */
  lemma StdZeroIffConstant(g: seq<real>, std: real)
    requires |g| > 0
    requires IsStdOf(std, Describe(g))
    ensures std == 0.0 <==> forall i :: 0 <= i < |g| ==> g[i] == g[0]
  {
    SquareSign(std);
  }

  /** A single grade is its own mean, median, minimum and maximum, with no spread. */
  lemma SingleGrade(x: real)
    ensures Describe([x]) == Stats(x, x, 0.0, x, x, 1)
  {
    assert [x][1..] == [];
    assert Sort([]) == [];
    assert Insert(x, []) == [x];
    assert Sort([x]) == [x];
  }

  /** The grades 70, 80 and 90: mean and median 80, population variance
      200/3 (a standard deviation of about 8.165). */
  lemma ThreeGrades(g: seq<real>)
    requires |g| == 3 && g[0] == 70.0 && g[1] == 80.0 && g[2] == 90.0
    ensures Describe(g) == Stats(80.0, 80.0, 200.0 / 3.0, 70.0, 90.0, 3)
  {
    var t1, t2 := g[1..], g[1..][1..];
    assert |t2| == 1 && t2[0] == 90.0 && t2[1..] == [];
    assert |t1| == 2 && t1[0] == 80.0 && t1[1..] == t2;
    assert Sum(g) == 240.0 by {
      assert Sum(t2) == 90.0;
    }
    assert Mean(g) == 80.0;
    assert Sorted(g);
    MedianOfSortedPermutation(g, g);
    assert Min(g) == 70.0 && Max(g) == 90.0 by {
      assert Min(t2) == 90.0 && Max(t2) == 90.0;
    }
    assert SquaredDeviations(g, 80.0) == 200.0 by {
      assert Square(70.0 - 80.0) == 100.0 && Square(80.0 - 80.0) == 0.0 && Square(90.0 - 80.0) == 100.0;
      assert SquaredDeviations(t2, 80.0) == 100.0;
    }
  }
}
