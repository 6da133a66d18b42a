/**
 The numerical reductions the dispersion tests take from numpy: sums, the
 sample mean, the sample median, the unbiased sample variance, the maximum of
 an array and the count of the elements that satisfy a test. Every array is a
 sequence of exact reals.
 */
module Descriptive {

  /** np.sum over a one-dimensional array. */
  function Sum(s: seq<real>): real
  {
    if |s| == 0 then 0.0 else s[0] + Sum(s[1..])
  }

  function Abs(v: real): (r: real)
    ensures r >= 0.0 && (r == v || r == -v)
  {
    if v < 0.0 then -v else v
  }

  /** v ** k for a natural exponent. */
  function Pow(v: real, k: nat): real
  {
    if k == 0 then 1.0 else v * Pow(v, k - 1)
  }

  /** An even power is never negative, and it is zero exactly at zero. */
  lemma {:induction false} EvenPow(v: real, k: nat)
    requires k % 2 == 0
    ensures Pow(v, k) >= 0.0
    ensures 0 < k ==> (Pow(v, k) == 0.0 <==> v == 0.0)
  {
    if k > 0 {
      EvenPow(v, k - 2);
      calc {
        Pow(v, k);
        v * Pow(v, k - 1);
        v * (v * Pow(v, k - 2));
        (v * v) * Pow(v, k - 2);
      }
      assert v * v >= 0.0;
      assert v * v == 0.0 <==> v == 0.0;
      if k == 2 {
        assert Pow(v, k - 2) == 1.0;
      }
    }
  }

  /** True when every element of s equals c. */
  ghost predicate AllAt(s: seq<real>, c: real)
  {
    forall i :: 0 <= i < |s| ==> s[i] == c
  }

  /** True when the sample holds a single repeated value. */
  ghost predicate AllEqual(s: seq<real>)
  {
    forall i :: 0 <= i < |s| ==> s[i] == s[0]
  }

  /** Sum over s of (s[i] - c) ** k: the k-th central sum about c. */
  function CentralSum(s: seq<real>, c: real, k: nat): (r: real)
    ensures k % 2 == 0 ==> r >= 0.0
    ensures 0 < k && k % 2 == 0 ==> (r == 0.0 <==> AllAt(s, c))
  {
    if |s| == 0 then 0.0
    else
      var head := Pow(s[0] - c, k);
      var tail := CentralSum(s[1..], c, k);
      if k % 2 == 0 then
        EvenPow(s[0] - c, k);
        assert AllAt(s, c) <==> s[0] == c && AllAt(s[1..], c) by {
          if s[0] == c && AllAt(s[1..], c) {
            forall i | 0 < i < |s| ensures s[i] == c {
              assert s[i] == s[1..][i - 1];
            }
          }
        }
        head + tail
      else
        head + tail
  }

  /** The first central sum is the plain sum shifted by |s| copies of c. */
  lemma {:induction false} FirstCentralSum(s: seq<real>, c: real)
    ensures CentralSum(s, c, 1) == Sum(s) - (|s| as real) * c
  {
    if |s| > 0 {
      FirstCentralSum(s[1..], c);
      assert Pow(s[0] - c, 1) == s[0] - c;
    }
  }

  /** A fourth power is the square of the second power. */
  lemma FourthPower(v: real)
    ensures Pow(v, 4) == Pow(v, 2) * Pow(v, 2)
  {
    assert Pow(v, 2) == v * v by {
      assert Pow(v, 1) == v;
    }
    assert Pow(v, 4) == v * (v * (v * v)) by {
      assert Pow(v, 3) == v * (v * v);
    }
  }

  /** b - 2ta + m t² >= 0: the sum of (u - t)² over m values u whose sum is a and whose sum of squares is b. */
  ghost predicate QuadraticNonNegative(a: real, b: real, m: real, t: real)
  {
    b - 2.0 * t * a + m * (t * t) >= 0.0
  }

  /**
   One more value u adds (u - t)² >= 0 to the quadratic: the sum grows by u,
   the sum of squares by u², the count by 1.
   */
  lemma QuadraticStep(u: real, a: real, b: real, m: real, t: real, a': real, b': real, m': real)
    requires QuadraticNonNegative(a, b, m, t)
    requires a' == u + a && b' == u * u + b && m' == m + 1.0
    ensures QuadraticNonNegative(a', b', m', t)
  {
    var w := u - t;
    assert w * w >= 0.0;
    assert w * w == u * u - 2.0 * t * u + t * t;
    assert m' * (t * t) == m * (t * t) + t * t;
    assert 2.0 * t * a' == 2.0 * t * a + 2.0 * t * u;
  }

  /** The quadratics of two samples add up to the quadratic of both together. */
  lemma QuadraticSum(a1: real, b1: real, m1: real, a2: real, b2: real, m2: real, t: real)
    requires QuadraticNonNegative(a1, b1, m1, t) && QuadraticNonNegative(a2, b2, m2, t)
    ensures QuadraticNonNegative(a1 + a2, b1 + b2, m1 + m2, t)
  {
  }

  /**
   Taking t = a / m, the mean of the m values: their mean square b / m is at
   least their squared mean.
   */
  lemma MeanSquareBound(a: real, b: real, m: real)
    requires m > 0.0 && QuadraticNonNegative(a, b, m, a / m)
    ensures b / m >= (a / m) * (a / m)
  {
  }

  /** A central sum of a non-empty sample is its head term plus the sum over the rest. */
  lemma {:induction false} CentralSumCons(s: seq<real>, c: real, k: nat)
    requires |s| > 0
    ensures CentralSum(s, c, k) == Pow(s[0] - c, k) + CentralSum(s[1..], c, k)
  {
  }

  /**
   The second and fourth central sums of a non-empty sample split into the
   head's squared deviation u, and u², plus the sums over the rest.
   */
  lemma {:induction false} CentralSumHead(s: seq<real>, c: real)
    requires |s| > 0
    ensures CentralSum(s, c, 2) == Pow(s[0] - c, 2) + CentralSum(s[1..], c, 2)
    ensures CentralSum(s, c, 4) == Pow(s[0] - c, 2) * Pow(s[0] - c, 2) + CentralSum(s[1..], c, 4)
  {
    CentralSumCons(s, c, 2);
    CentralSumCons(s, c, 4);
    FourthPower(s[0] - c);
  }

  /**
   Summing ((s[i] - c)² - t)² over s: the fourth central sum minus 2t times
   the second, plus |s| t², is never negative, whatever t is.
   */
  lemma {:induction false} CentralSumQuadratic(s: seq<real>, c: real, t: real)
    ensures QuadraticNonNegative(CentralSum(s, c, 2), CentralSum(s, c, 4), |s| as real, t)
  {
    if |s| > 0 {
      var rest := s[1..];
      CentralSumQuadratic(rest, c, t);
      CentralSumHead(s, c);
      QuadraticStep(Pow(s[0] - c, 2), CentralSum(rest, c, 2), CentralSum(rest, c, 4), |rest| as real, t,
                    CentralSum(s, c, 2), CentralSum(s, c, 4), |s| as real);
    }
  }

  /** If every element lies in [lo, hi], the sum lies in [|s| lo, |s| hi]. */
  lemma {:induction false} SumBounds(s: seq<real>, lo: real, hi: real)
    requires forall i :: 0 <= i < |s| ==> lo <= s[i] <= hi
    ensures (|s| as real) * lo <= Sum(s) <= (|s| as real) * hi
  {
    if |s| > 0 {
      SumBounds(s[1..], lo, hi);
    }
  }

  /** np.mean: the arithmetic mean of a non-empty sample; |s| copies of it make up the sum. */
  function Mean(s: seq<real>): (r: real)
    requires |s| > 0
    ensures (|s| as real) * r == Sum(s)
  {
    Sum(s) / (|s| as real)
  }

  /** The deviations from the sample mean cancel out. */
  lemma {:induction false} MeanDeviationsCancel(s: seq<real>)
    requires |s| > 0
    ensures CentralSum(s, Mean(s), 1) == 0.0
  {
    FirstCentralSum(s, Mean(s));
    var n := |s| as real;
    assert n * Mean(s) == Sum(s);
  }

  /** np.max: the largest element of a non-empty array. */
  function MaxOf(s: seq<real>): (r: real)
    requires |s| > 0
    ensures forall i :: 0 <= i < |s| ==> s[i] <= r
    ensures exists i :: 0 <= i < |s| && s[i] == r
  {
    if |s| == 1 then s[0]
    else
      var rest := MaxOf(s[1..]);
      assert forall i :: 1 <= i < |s| ==> s[i] == s[1..][i - 1];
      if s[0] >= rest then s[0] else rest
  }

  /** The smallest element of a non-empty array. */
  function MinOf(s: seq<real>): (r: real)
    requires |s| > 0
    ensures forall i :: 0 <= i < |s| ==> r <= s[i]
    ensures exists i :: 0 <= i < |s| && s[i] == r
  {
    if |s| == 1 then s[0]
    else
      var rest := MinOf(s[1..]);
      assert forall i :: 1 <= i < |s| ==> s[i] == s[1..][i - 1];
      if s[0] <= rest then s[0] else rest
  }

  /** Dividing a value in [n lo, n hi] by n > 0 lands in [lo, hi]. */
  lemma QuotientBounds(a: real, n: real, lo: real, hi: real)
    requires n > 0.0 && n * lo <= a <= n * hi
    ensures lo <= a / n <= hi
  {
  }

  /** If every element lies in [lo, hi], so does the mean. */
  lemma {:induction false} MeanBounds(s: seq<real>, lo: real, hi: real)
    requires |s| > 0
    requires forall i :: 0 <= i < |s| ==> lo <= s[i] <= hi
    ensures lo <= Mean(s) <= hi
  {
    SumBounds(s, lo, hi);
    QuotientBounds(Sum(s), |s| as real, lo, hi);
  }

  /** The mean lies between the smallest and the largest element. */
  lemma {:induction false} MeanWithinRange(s: seq<real>)
    requires |s| > 0
    ensures MinOf(s) <= Mean(s) <= MaxOf(s)
  {
    MeanBounds(s, MinOf(s), MaxOf(s));
  }

  /** The mean of a constant sample is that constant. */
  lemma {:induction false} MeanOfConstant(s: seq<real>)
    requires |s| > 0 && AllEqual(s)
    ensures Mean(s) == s[0]
  {
    SumBounds(s, s[0], s[0]);
    var n := |s| as real;
    assert Sum(s) == n * s[0];
  }

  /** Every element equals the mean exactly when the sample is constant. */
  lemma {:induction false} AtMeanIffConstant(s: seq<real>)
    requires |s| > 0
    ensures AllAt(s, Mean(s)) <==> AllEqual(s)
  {
    if AllEqual(s) {
      MeanOfConstant(s);
    }
  }

  /**
   np.var(s, ddof=1): the unbiased sample variance, whose denominator is
   n - 1. It is never negative and vanishes exactly on a constant sample.
   */
  function SampleVar(s: seq<real>): (r: real)
    requires |s| >= 2
    ensures r >= 0.0
    ensures r == 0.0 <==> AllEqual(s)
  {
    var ss := CentralSum(s, Mean(s), 2);
    var d := (|s| - 1) as real;
    AtMeanIffConstant(s);
    assert ss / d == 0.0 <==> ss == 0.0;
    ss / d
  }

  /** n - 1 times the sample variance is the sum of the squared deviations from the mean. */
  lemma {:induction false} SampleVarScaled(s: seq<real>)
    requires |s| >= 2
    ensures ((|s| - 1) as real) * SampleVar(s) == CentralSum(s, Mean(s), 2)
  {
  }

  /** The number of elements of s that pass the test p: np.sum(np.where(p(s), 1, 0)). */
  function Count(s: seq<real>, p: real -> bool): (r: nat)
    ensures r <= |s|
    ensures r > 0 <==> exists i :: 0 <= i < |s| && p(s[i])
    ensures r == |s| <==> forall i :: 0 <= i < |s| ==> p(s[i])
  {
    if |s| == 0 then 0
    else
      var rest := Count(s[1..], p);
      assert forall i :: 1 <= i < |s| ==> s[i] == s[1..][i - 1];
      (if p(s[0]) then 1 else 0) + rest
  }

  /** The test "strictly greater than t". */
  function Above(t: real): real -> bool
  {
    v => v > t
  }

  /** The test "at most m". */
  function AtMost(m: real): real -> bool
  {
    v => v <= m
  }

  /** The test "at least m". */
  function AtLeast(m: real): real -> bool
  {
    v => v >= m
  }

  lemma {:induction false} CountAppend(a: seq<real>, b: seq<real>, p: real -> bool)
    ensures Count(a + b, p) == Count(a, p) + Count(b, p)
  {
    if |a| > 0 {
      CountAppend(a[1..], b, p);
      assert (a + b)[1..] == a[1..] + b;
    } else {
      assert a + b == b;
    }
  }

  /** t is its prefix before j, then t[j], then its suffix after j. */
  lemma {:induction false} SplitAt(t: seq<real>, j: nat)
    requires j < |t|
    ensures t == t[..j] + [t[j]] + t[j + 1..]
  {
  }

  /** Taking element j out of t removes exactly its contribution to the count. */
  lemma {:induction false} CountRemove(t: seq<real>, j: nat, p: real -> bool)
    requires j < |t|
    ensures Count(t, p) == Count(t[..j] + t[j + 1..], p) + (if p(t[j]) then 1 else 0)
  {
    var pre, mid, post := t[..j], [t[j]], t[j + 1..];
    SplitAt(t, j);
    assert Count(mid, p) == if p(t[j]) then 1 else 0 by {
      assert mid[1..] == [];
    }
    CountAppend(pre + mid, post, p);
    CountAppend(pre, mid, p);
    CountAppend(pre, post, p);
  }

  /** Matching the head of s with an equal element t[j] leaves equal multisets. */
  lemma {:induction false} MultisetRemove(s: seq<real>, t: seq<real>, j: nat)
    requires |s| > 0 && j < |t| && t[j] == s[0] && multiset(s) == multiset(t)
    ensures multiset(s[1..]) == multiset(t[..j] + t[j + 1..])
  {
    assert t == t[..j] + [t[j]] + t[j + 1..];
    assert s == [s[0]] + s[1..];
    assert multiset(s[1..]) == multiset(s) - multiset{s[0]};
    assert multiset(t[..j] + t[j + 1..]) == multiset(t) - multiset{t[j]};
  }

  /** Counting does not depend on the order of the elements. */
  lemma {:induction false} CountPermutation(s: seq<real>, t: seq<real>, p: real -> bool)
    requires multiset(s) == multiset(t)
    ensures Count(s, p) == Count(t, p)
    decreases |s|
  {
    if |s| == 0 {
      assert |t| == |multiset(t)| == 0;
    } else {
      assert s[0] in multiset(t);
      var j :| 0 <= j < |t| && t[j] == s[0];
      MultisetRemove(s, t, j);
      CountPermutation(s[1..], t[..j] + t[j + 1..], p);
      CountRemove(t, j, p);
    }
  }

  ghost predicate Sorted(s: seq<real>)
  {
    forall i, j :: 0 <= i < j < |s| ==> s[i] <= s[j]
  }

  /** A value no larger than any element of a sorted sequence can go in front of it. */
  lemma {:induction false} SortedCons(x: real, r: seq<real>)
    requires Sorted(r) && forall k :: 0 <= k < |r| ==> x <= r[k]
    ensures Sorted([x] + r)
  {
    var xr := [x] + r;
    forall i, j | 0 <= i < j < |xr| ensures xr[i] <= xr[j] {
      assert xr[j] == r[j - 1];
      if i > 0 {
        assert xr[i] == r[i - 1];
      }
    }
  }

  /**
   When v goes after the head of t, the head followed by v inserted into the
   rest is sorted and holds t and v.
   */
  lemma {:induction false} InsertAfterHead(v: real, t: seq<real>, rest: seq<real>)
    requires |t| > 0 && Sorted(t) && t[0] < v
    requires Sorted(rest) && multiset(rest) == multiset(t[1..]) + multiset{v}
    ensures Sorted([t[0]] + rest)
    ensures multiset([t[0]] + rest) == multiset(t) + multiset{v}
  {
    assert t == [t[0]] + t[1..];
    forall k | 0 <= k < |rest| ensures t[0] <= rest[k] {
      assert rest[k] in multiset(rest);
      if rest[k] != v {
        assert rest[k] in multiset(t[1..]);
      }
    }
    SortedCons(t[0], rest);
  }

  /** Inserts v into a sorted sequence, keeping it sorted. */
  function Insert(v: real, t: seq<real>): (r: seq<real>)
    requires Sorted(t)
    ensures Sorted(r)
    ensures multiset(r) == multiset(t) + multiset{v}
  {
    if |t| == 0 then [v]
    else if v <= t[0] then
      SortedCons(v, t);
      [v] + t
    else
      var rest := Insert(v, t[1..]);
      InsertAfterHead(v, t, rest);
      [t[0]] + rest
  }

  /** The sorted copy that np.median works on. */
  function Sort(s: seq<real>): (r: seq<real>)
    ensures Sorted(r)
    ensures multiset(r) == multiset(s)
  {
    if |s| == 0 then []
    else
      assert s == [s[0]] + s[1..];
      Insert(s[0], Sort(s[1..]))
  }

  /** When the first k elements pass p, at least k elements pass p. */
  lemma {:induction false} CountPrefix(t: seq<real>, k: nat, p: real -> bool)
    requires k <= |t|
    requires forall i :: 0 <= i < k ==> p(t[i])
    ensures Count(t, p) >= k
  {
    var pre, post := t[..k], t[k..];
    assert forall i :: 0 <= i < |pre| ==> p(pre[i]);
    assert Count(pre, p) == k;
    assert t == pre + post;
    CountAppend(pre, post, p);
  }

  /** When the elements from index k on pass p, at least |t| - k elements pass p. */
  lemma {:induction false} CountSuffix(t: seq<real>, k: nat, p: real -> bool)
    requires k <= |t|
    requires forall i :: k <= i < |t| ==> p(t[i])
    ensures Count(t, p) >= |t| - k
  {
    var post := t[k..];
    assert forall i :: 0 <= i < |post| ==> p(post[i]);
    assert t == t[..k] + post;
    CountAppend(t[..k], post, p);
  }

  /** In a sorted sequence, a value at or above the lower middle element has at least half the elements at or below it. */
  lemma {:induction false} SortedLowerHalf(t: seq<real>, m: real)
    requires Sorted(t) && |t| > 0
    requires t[(|t| - 1) / 2] <= m
    ensures 2 * Count(t, AtMost(m)) >= |t|
  {
    var k := (|t| - 1) / 2 + 1;
    forall i | 0 <= i < k ensures AtMost(m)(t[i]) {
      assert t[i] <= t[k - 1];
    }
    CountPrefix(t, k, AtMost(m));
  }

  /** In a sorted sequence, a value at or below the upper middle element has at least half the elements at or above it. */
  lemma {:induction false} SortedUpperHalf(t: seq<real>, m: real)
    requires Sorted(t) && |t| > 0
    requires m <= t[|t| / 2]
    ensures 2 * Count(t, AtLeast(m)) >= |t|
  {
    var k := |t| / 2;
    forall i | k <= i < |t| ensures AtLeast(m)(t[i]) {
      assert t[k] <= t[i];
    }
    CountSuffix(t, k, AtLeast(m));
  }

  /** The middle element of t, or the average of the two middle elements when |t| is even. */
  function Middle(t: seq<real>): real
    requires |t| > 0
  {
    var n := |t|;
    if n % 2 == 1 then t[n / 2] else (t[n / 2 - 1] + t[n / 2]) / 2.0
  }

  /** In a sorted sequence the middle value lies between the lower and the upper middle element. */
  lemma {:induction false} MiddleBetween(t: seq<real>)
    requires Sorted(t) && |t| > 0
    ensures t[(|t| - 1) / 2] <= Middle(t) <= t[|t| / 2]
  {
  }

  /**
   np.median: the middle element of the sorted sample, or the average of the
   two middle elements when the length is even. At least half of the
   elements are at most the median and at least half are at least it.
   */
  function Median(s: seq<real>): (r: real)
    requires |s| > 0
    ensures 2 * Count(s, AtMost(r)) >= |s|
    ensures 2 * Count(s, AtLeast(r)) >= |s|
  {
    var t := Sort(s);
    assert |t| == |multiset(t)| == |multiset(s)| == |s|;
    MiddleBetween(t);
    var m := Middle(t);
    SortedLowerHalf(t, m);
    SortedUpperHalf(t, m);
    CountPermutation(s, t, AtMost(m));
    CountPermutation(s, t, AtLeast(m));
    m
  }

  /** The median lies between the smallest and the largest element. */
  lemma {:induction false} MedianWithinRange(s: seq<real>)
    requires |s| > 0
    ensures MinOf(s) <= Median(s) <= MaxOf(s)
  {
  }
}
