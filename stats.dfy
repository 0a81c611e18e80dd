/** The numeric reductions that the scripts' groupby aggregations apply to a
    TMC's travel times or to a column: sum, min, max, mean, and numpy's default
    ("linear") percentile. Values are exact reals; float rounding is not modelled. */
module Stats {
  import opened Wrappers

  /** `Series.sum()` over values that are all present. */
  function Sum(s: seq<real>): real
  {
    if s == [] then 0.0 else s[0] + Sum(s[1..])
  }

  lemma {:induction false} SumConcat(a: seq<real>, b: seq<real>)
    ensures Sum(a + b) == Sum(a) + Sum(b)
  {
    if a == [] {
      assert a + b == b;
    } else {
      assert (a + b)[1..] == a[1..] + b;
      SumConcat(a[1..], b);
    }
  }

  /** A sum of n values that all lie in [lo, hi] lies in [n*lo, n*hi]. */
  lemma {:induction false} SumBetween(s: seq<real>, lo: real, hi: real)
    requires forall i :: 0 <= i < |s| ==> lo <= s[i] <= hi
    ensures |s| as real * lo <= Sum(s) <= |s| as real * hi
  {
    if s != [] {
      SumBetween(s[1..], lo, hi);
      assert |s[1..]| as real == |s| as real - 1.0;
    }
  }

  lemma {:induction false} SumNonNegative(s: seq<real>)
    requires forall i :: 0 <= i < |s| ==> 0.0 <= s[i]
    ensures 0.0 <= Sum(s)
  {
    if s != [] {
      SumNonNegative(s[1..]);
    }
  }

  /** `Series.max()`: an element of s that no element exceeds. */
  function Max(s: seq<real>): (r: real)
    requires |s| > 0
    ensures r in s
    ensures forall i :: 0 <= i < |s| ==> s[i] <= r
  {
    if |s| == 1 then s[0]
    else
      var m := Max(s[1..]);
      if s[0] >= m then s[0] else m
  }

  /** `Series.min()`: an element of s that exceeds no element. */
  function Min(s: seq<real>): (r: real)
    requires |s| > 0
    ensures r in s
    ensures forall i :: 0 <= i < |s| ==> r <= s[i]
  {
    if |s| == 1 then s[0]
    else
      var m := Min(s[1..]);
      if s[0] <= m then s[0] else m
  }

  /** `Series.mean()`: it lies between the group's minimum and maximum. */
  function Mean(s: seq<real>): (r: real)
    requires |s| > 0
    ensures Min(s) <= r <= Max(s)
  {
    AverageBetween(s, Min(s), Max(s));
    Sum(s) / |s| as real
  }

  /** A group whose values are all c has mean c. */
  lemma MeanOfConstant(s: seq<real>, c: real)
    requires |s| > 0 && forall i :: 0 <= i < |s| ==> s[i] == c
    ensures Mean(s) == c
  {
    assert Min(s) == c && Max(s) == c;
  }

  lemma HalfQuotients(x: real, y: real, n: real)
    requires n > 0.0
    ensures (x + y) / (n + n) == (x / n + y / n) / 2.0
  {
    assert (x + y) / (n + n) == ((x + y) / n) / 2.0;
  }

  /** Two groups of the same size pooled together: the mean of the pool is
      the average of the two means. */
  lemma MeanOfHalves(a: seq<real>, b: seq<real>)
    requires |a| > 0 && |a| == |b|
    ensures Mean(a + b) == (Mean(a) + Mean(b)) / 2.0
  {
    var n := |a| as real;
    SumConcat(a, b);
    assert |a + b| as real == n + n;
    assert Mean(a + b) == (Sum(a) + Sum(b)) / (n + n);
    assert Mean(a) == Sum(a) / n && Mean(b) == Sum(b) / n;
    HalfQuotients(Sum(a), Sum(b), n);
  }

  lemma DivBetween(sum: real, n: real, lo: real, hi: real)
    requires n > 0.0 && n * lo <= sum <= n * hi
    ensures lo <= sum / n <= hi
  {
    var m := sum / n;
    assert m * n == sum;
    assert (m - lo) * n == sum - lo * n;
    assert (hi - m) * n == hi * n - sum;
  }

  /** Values within [lo, hi] average to a value within [lo, hi]. */
  lemma AverageBetween(s: seq<real>, lo: real, hi: real)
    requires |s| > 0
    requires forall i :: 0 <= i < |s| ==> lo <= s[i] <= hi
    ensures lo <= Sum(s) / |s| as real <= hi
  {
    SumBetween(s, lo, hi);
    DivBetween(Sum(s), |s| as real, lo, hi);
  }

  ghost predicate Sorted(s: seq<real>)
  {
    forall i, j :: 0 <= i <= j < |s| ==> s[i] <= s[j]
  }

  function Insert(x: real, s: seq<real>): (r: seq<real>)
    requires Sorted(s)
    ensures |r| == |s| + 1
    ensures Sorted(r)
    ensures multiset(r) == multiset(s) + multiset{x}
  {
    if s == [] then [x]
    else if x <= s[0] then [x] + s
    else
      SortedTail(s);
      var rest := Insert(x, s[1..]);
      assert s == [s[0]] + s[1..];
      BoundBelow(s[0], rest, x, s[1..]);
      SortedCons(s[0], rest);
      [s[0]] + rest
  }

  /** The rest of a sorted sequence is sorted and no element of it is below the head. */
  lemma SortedTail(s: seq<real>)
    requires Sorted(s) && s != []
    ensures Sorted(s[1..])
    ensures forall i :: 0 <= i < |s| - 1 ==> s[0] <= s[1..][i]
  {
    forall i, j | 0 <= i <= j < |s| - 1 ensures s[1..][i] <= s[1..][j] {
      assert s[1..][i] == s[i + 1] && s[1..][j] == s[j + 1];
    }
  }

  /** Adding an element no smaller than h to values no smaller than h keeps them all no smaller than h. */
  lemma BoundBelow(h: real, rest: seq<real>, x: real, tail: seq<real>)
    requires multiset(rest) == multiset(tail) + multiset{x}
    requires h <= x && forall i :: 0 <= i < |tail| ==> h <= tail[i]
    ensures forall i :: 0 <= i < |rest| ==> h <= rest[i]
  {
    forall i | 0 <= i < |rest| ensures h <= rest[i] {
      assert rest[i] in multiset(rest);
      if rest[i] != x {
        assert rest[i] in multiset(tail);
        var j :| 0 <= j < |tail| && tail[j] == rest[i];
      }
    }
  }

  /** A sorted sequence behind a head no larger than any of its elements is sorted. */
  lemma SortedCons(h: real, rest: seq<real>)
    requires Sorted(rest) && forall i :: 0 <= i < |rest| ==> h <= rest[i]
    ensures Sorted([h] + rest)
  {
    var r := [h] + rest;
    forall i, j | 0 <= i <= j < |r| ensures r[i] <= r[j] {
      if i > 0 {
        assert r[i] == rest[i - 1] && r[j] == rest[j - 1];
      } else if j > 0 {
        assert r[j] == rest[j - 1];
      }
    }
  }

  /** The ascending order in which numpy reads a group before interpolating. */
  function Sort(s: seq<real>): (r: seq<real>)
    ensures |r| == |s|
    ensures Sorted(r)
    ensures multiset(r) == multiset(s)
  {
    if s == [] then []
    else
      assert s == [s[0]] + s[1..];
      Insert(s[0], Sort(s[1..]))
  }

  lemma SortedElement(s: seq<real>, i: int)
    requires 0 <= i < |s|
    ensures |Sort(s)| == |s| && Sort(s)[i] in s
  {
    var x := Sort(s);
    assert x[i] in multiset(x);
  }

  lemma {:induction false} ScaleMonotone(a: int, b: int, n: int)
    requires 0 <= a <= b && 0 <= n
    ensures 0 <= a * n <= b * n
  {
    if n > 0 {
      ScaleMonotone(a, b, n - 1);
      assert a * n == a * (n - 1) + a;
      assert b * n == b * (n - 1) + b;
    }
  }

  /** The value at virtual position pos/100 of a sorted sequence x, linearly
      interpolated between its two neighbouring ranks. */
  function Lerp(x: seq<real>, pos: int): real
    requires 0 <= pos <= 100 * (|x| - 1)
  {
    var k := pos / 100;
    var j := pos % 100;
    if j == 0 then x[k] else x[k] + (j as real / 100.0) * (x[k + 1] - x[k])
  }

  /** `np.percentile(s, p)` with numpy's default linear method: sort, take the
      rank r = p/100 * (n - 1), and interpolate between x[floor r] and x[ceil r].
      Every percentile lies between the group's minimum and maximum. */
  function Percentile(s: seq<real>, p: int): (r: real)
    requires |s| > 0 && 0 <= p <= 100
    ensures Min(s) <= r <= Max(s)
  {
    var n := |s| - 1;
    ScaleMonotone(p, 100, n);
    SortBetween(s, Min(s), Max(s));
    LerpBetween(Sort(s), p * n, Min(s), Max(s));
    Lerp(Sort(s), p * n)
  }

  /** Linear interpolation at fraction f stays between its two end points. */
  lemma Interpolate(a: real, b: real, f: real)
    requires a <= b && 0.0 <= f <= 1.0
    ensures a <= a + f * (b - a) <= b
  {
    var d := b - a;
    ProductNonNegative(f, d);
    ProductNonNegative(1.0 - f, d);
    assert (1.0 - f) * d == d - f * d;
  }

  lemma ProductNonNegative(x: real, y: real)
    requires 0.0 <= x && 0.0 <= y
    ensures 0.0 <= x * y
  {
  }

  /** One step of the virtual position never lowers the interpolated value. */
  lemma LerpStep(x: seq<real>, pos: int)
    requires Sorted(x)
    requires 0 <= pos < 100 * (|x| - 1)
    ensures Lerp(x, pos) <= Lerp(x, pos + 1)
  {
    var k, j := pos / 100, pos % 100;
    var k', j' := (pos + 1) / 100, (pos + 1) % 100;
    assert pos == 100 * k + j;
    if j == 99 {
      assert k' == k + 1 && j' == 0;
      assert x[k] <= x[k + 1];
    } else {
      assert k' == k && j' == j + 1;
      assert k + 1 < |x|;
      assert x[k] <= x[k + 1];
      assert (j as real / 100.0) * (x[k + 1] - x[k]) <= (j' as real / 100.0) * (x[k + 1] - x[k]);
    }
  }

  lemma {:induction false} LerpMonotone(x: seq<real>, a: int, b: int)
    requires Sorted(x)
    requires 0 <= a <= b <= 100 * (|x| - 1)
    ensures Lerp(x, a) <= Lerp(x, b)
    decreases b - a
  {
    if a < b {
      LerpStep(x, a);
      LerpMonotone(x, a + 1, b);
    }
  }

  /** A higher percentile is never below a lower one (so p5 <= p95, p50 <= p80). */
  lemma PercentileMonotone(s: seq<real>, p: int, q: int)
    requires |s| > 0 && 0 <= p <= q <= 100
    ensures Percentile(s, p) <= Percentile(s, q)
  {
    var n := |s| - 1;
    ScaleMonotone(p, q, n);
    ScaleMonotone(q, 100, n);
    LerpMonotone(Sort(s), p * n, q * n);
  }

  lemma SortBetween(s: seq<real>, lo: real, hi: real)
    requires forall i :: 0 <= i < |s| ==> lo <= s[i] <= hi
    ensures forall i :: 0 <= i < |Sort(s)| ==> lo <= Sort(s)[i] <= hi
  {
    var x := Sort(s);
    forall i | 0 <= i < |x|
      ensures lo <= x[i] <= hi
    {
      SortedElement(s, i);
      var j :| 0 <= j < |s| && s[j] == x[i];
    }
  }

  lemma LerpBetween(x: seq<real>, pos: int, lo: real, hi: real)
    requires Sorted(x)
    requires 0 <= pos <= 100 * (|x| - 1)
    requires forall i :: 0 <= i < |x| ==> lo <= x[i] <= hi
    ensures lo <= Lerp(x, pos) <= hi
  {
    var k, j := pos / 100, pos % 100;
    if j != 0 {
      assert pos == 100 * k + j && 0 < j < 100;
      assert k + 1 < |x|;
      var f := j as real / 100.0;
      assert 0.0 <= f <= 1.0;
      assert x[k] <= x[k + 1];
      Interpolate(x[k], x[k + 1], f);
      assert Lerp(x, pos) == x[k] + f * (x[k + 1] - x[k]);
    }
  }

  lemma PercentileBetween(s: seq<real>, p: int, lo: real, hi: real)
    requires |s| > 0 && 0 <= p <= 100
    requires forall i :: 0 <= i < |s| ==> lo <= s[i] <= hi
    ensures lo <= Percentile(s, p) <= hi
  {
    var n := |s| - 1;
    ScaleMonotone(p, 100, n);
    SortBetween(s, lo, hi);
    LerpBetween(Sort(s), p * n, lo, hi);
  }

  /** A group whose values are all c has every percentile equal to c. */
  lemma PercentileOfConstant(s: seq<real>, p: int, c: real)
    requires |s| > 0 && 0 <= p <= 100
    requires forall i :: 0 <= i < |s| ==> s[i] == c
    ensures Percentile(s, p) == c
  {
    PercentileBetween(s, p, c, c);
  }

  /** numpy's linear percentile of three ordered values: the median is the
      middle one, and the 80th percentile lies 60% of the way from the middle
      to the largest (so [100, 100, 200] gives 100 and 160). */
  lemma PercentileOfThree(s: seq<real>)
    requires |s| == 3 && s[0] <= s[1] <= s[2]
    ensures Percentile(s, 50) == s[1]
    ensures Percentile(s, 80) == s[1] + 0.6 * (s[2] - s[1])
  {
    assert Sorted(s);
    SortOfSorted(s);
    assert Percentile(s, 50) == Lerp(s, 100);
    assert Percentile(s, 80) == Lerp(s, 160);
    assert 160 / 100 == 1 && 160 % 100 == 60;
    assert 60 as real / 100.0 == 0.6;
  }

  /** Sorting a sequence that is already in order leaves it as it is. */
  lemma {:induction false} SortOfSorted(s: seq<real>)
    requires Sorted(s)
    ensures Sort(s) == s
  {
    if s != [] {
      var tail := s[1..];
      assert Sorted(tail) by {
        forall i, j | 0 <= i <= j < |tail| ensures tail[i] <= tail[j] {
          assert tail[i] == s[i + 1] && tail[j] == s[j + 1];
        }
      }
      SortOfSorted(tail);
      assert s == [s[0]] + tail;
      if tail != [] {
        assert s[0] <= tail[0] == s[1];
      }
    }
  }

  /** The reliability ratio p_hi / p50 of a group; None where the 50th
      percentile is 0 (pandas yields inf or NaN there, never a finite ratio). */
  function PercentileRatio(s: seq<real>, hi: int): (r: Option<real>)
    requires |s| > 0 && 0 <= hi <= 100
    ensures r.Some? <==> Percentile(s, 50) != 0.0
    ensures r.Some? ==> r.value == Percentile(s, hi) / Percentile(s, 50)
  {
    var mid := Percentile(s, 50);
    if mid == 0.0 then None else Some(Percentile(s, hi) / mid)
  }

  lemma QuotientAtLeastOne(a: real, b: real)
    requires a >= b > 0.0
    ensures a / b >= 1.0
  {
    assert (a / b) * b == a;
    assert (a / b - 1.0) * b == a - b;
  }

  /** For positive travel times, p_hi / p50 is defined and at least 1 when hi >= 50. */
  lemma RatioAtLeastOne(s: seq<real>, hi: int)
    requires |s| > 0 && 50 <= hi <= 100
    requires forall i :: 0 <= i < |s| ==> s[i] > 0.0
    ensures PercentileRatio(s, hi).Some? && PercentileRatio(s, hi).value >= 1.0
  {
    var lo := Min(s);
    PercentileBetween(s, 50, lo, Max(s));
    PercentileMonotone(s, 50, hi);
    QuotientAtLeastOne(Percentile(s, hi), Percentile(s, 50));
  }

  /** A group with one repeated positive travel time has ratio exactly 1. */
  lemma RatioOfConstant(s: seq<real>, hi: int, c: real)
    requires |s| > 0 && 0 <= hi <= 100 && c > 0.0
    requires forall i :: 0 <= i < |s| ==> s[i] == c
    ensures PercentileRatio(s, hi) == Some(1.0)
  {
    PercentileOfConstant(s, 50, c);
    PercentileOfConstant(s, hi, c);
    SelfQuotient(c);
  }

  lemma SelfQuotient(c: real)
    requires c != 0.0
    ensures c / c == 1.0
  {
  }
}
