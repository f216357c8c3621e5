/** Exact-real counterparts of the NumPy reductions the trait scripts use:
    `sum`, `mean`, population variance, `sort` and `min`/`max`.  The
    sort is specified as the unique sorted permutation of its input. */
module Stats {

  function Sum(s: seq<real>): real {
    if s == [] then 0.0 else s[0] + Sum(s[1..])
  }

  lemma {:induction false} SumAppend(a: seq<real>, b: seq<real>)
    ensures Sum(a + b) == Sum(a) + Sum(b)
  {
    if a == [] {
      assert a + b == b;
    } else {
      assert (a + b)[0] == a[0];
      assert (a + b)[1..] == a[1..] + b;
      SumAppend(a[1..], b);
    }
  }

  /** The sum depends only on the multiset of values, not on their order. */
  lemma {:induction false} SumPermutation(a: seq<real>, b: seq<real>)
    requires multiset(a) == multiset(b)
    ensures Sum(a) == Sum(b)
  {
    if a == [] {
      assert |b| == |multiset(b)| == 0;
    } else {
      var x := a[0];
      assert x in multiset(b);
      var j :| 0 <= j < |b| && b[j] == x;
      var rest := b[..j] + b[j + 1..];
      RemoveAtMultiset(b, j);
      RemoveAtSum(b, j);
      MultisetTail(a);
      SumPermutation(a[1..], rest);
    }
  }

  /** Taking out the value at `j` removes it from the multiset. */
  lemma RemoveAtMultiset(b: seq<real>, j: nat)
    requires j < |b|
    ensures multiset(b[..j] + b[j + 1..]) == multiset(b) - multiset{b[j]}
  {
    assert b == b[..j] + [b[j]] + b[j + 1..];
  }

  /** Taking out the value at `j` removes it from the sum. */
  lemma RemoveAtSum(b: seq<real>, j: nat)
    requires j < |b|
    ensures Sum(b) == b[j] + Sum(b[..j] + b[j + 1..])
  {
    var x, front, back := b[j], b[..j], b[j + 1..];
    assert b == front + ([x] + back);
    SumAppend(front, [x] + back);
    SumCons(x, back);
    SumAppend(front, back);
  }

  lemma SumCons(x: real, s: seq<real>)
    ensures Sum([x] + s) == x + Sum(s)
  {
    assert ([x] + s)[1..] == s;
  }

  /** n values within [lo, hi] sum to between n * lo and n * hi. */
  lemma {:induction false} SumBounds(s: seq<real>, lo: real, hi: real)
    requires forall i :: 0 <= i < |s| ==> lo <= s[i] <= hi
    ensures |s| as real * lo <= Sum(s) <= |s| as real * hi
  {
    if s != [] {
      SumBounds(s[1..], lo, hi);
    }
  }

  /** `np.mean` */
  function Mean(s: seq<real>): real
    requires |s| > 0
  {
    Sum(s) / |s| as real
  }

  /** The mean times the count is the sum. */
  lemma MeanScaled(s: seq<real>)
    requires |s| > 0
    ensures |s| as real * Mean(s) == Sum(s)
  {
    var n := |s| as real;
    assert n * (Sum(s) / n) == Sum(s);
  }

  lemma MulStrict(a: real, b: real, n: real)
    requires n > 0.0 && a < b
    ensures a * n < b * n
  {
  }

  /** If a total is bounded by n * c, the mean over n is bounded by c. */
  lemma DivBounds(total: real, n: real, lo: real, hi: real)
    requires n > 0.0
    requires n * lo <= total <= n * hi
    ensures lo <= total / n <= hi
  {
    var m := total / n;
    assert total == m * n;
    if m < lo {
      MulStrict(m, lo, n);
    }
    if m > hi {
      MulStrict(hi, m, n);
    }
  }

  lemma {:induction false} SumAtMost(s: seq<real>, hi: real)
    requires forall i :: 0 <= i < |s| ==> s[i] <= hi
    ensures Sum(s) <= |s| as real * hi
  {
    if s != [] {
      SumAtMost(s[1..], hi);
    }
  }

  lemma DivAtMost(total: real, n: real, hi: real)
    requires n > 0.0 && total <= n * hi
    ensures total / n <= hi
  {
    var m := total / n;
    assert total == m * n;
    if m > hi {
      MulStrict(hi, m, n);
    }
  }

  /** Appending values no larger than the mean of a sequence does not raise
      the mean. */
  lemma MeanBelow(low: seq<real>, top: seq<real>, m: real)
    requires |top| > 0 && Mean(top) == m
    requires forall i :: 0 <= i < |low| ==> low[i] <= m
    ensures Mean(low + top) <= m
  {
    var a, b := |low| as real, |top| as real;
    SumAtMost(low, m);
    assert Sum(top) == m * b;
    SumAppend(low, top);
    assert a * m + m * b == (a + b) * m;
    assert |low + top| as real == a + b;
    DivAtMost(Sum(low + top), a + b, m);
  }

  /** The mean lies between any lower and upper bound of the values. */
  lemma MeanBounds(s: seq<real>, lo: real, hi: real)
    requires |s| > 0
    requires forall i :: 0 <= i < |s| ==> lo <= s[i] <= hi
    ensures lo <= Mean(s) <= hi
  {
    SumBounds(s, lo, hi);
    DivBounds(Sum(s), |s| as real, lo, hi);
  }

  predicate Sorted(s: seq<real>) {
    forall i, j :: 0 <= i <= j < |s| ==> s[i] <= s[j]
  }

  /** Inserts `x` into a sorted sequence at its place. */
  function Insert(s: seq<real>, x: real): (r: seq<real>)
    requires Sorted(s)
    ensures |r| == |s| + 1
    ensures r[0] == if s == [] || x <= s[0] then x else s[0]
    ensures Sorted(r)
    ensures multiset(r) == multiset(s) + multiset{x}
  {
    if s == [] || x <= s[0] then
      [x] + s
    else
      var rest := Insert(s[1..], x);
      assert s == [s[0]] + s[1..];
      assert s[0] <= rest[0];
      [s[0]] + rest
  }

  /** `np.sort`: the sorted permutation of the values. */
  function Sort(s: seq<real>): (r: seq<real>)
    ensures |r| == |s|
    ensures Sorted(r)
    ensures multiset(r) == multiset(s)
  {
    if s == [] then []
    else
      assert s == [s[0]] + s[1..];
      Insert(Sort(s[1..]), s[0])
  }

  /** Sorted sequences whose every element of the first is at most every
      element of the second concatenate to a sorted sequence. */
  lemma SortedConcat(a: seq<real>, b: seq<real>)
    requires Sorted(a) && Sorted(b)
    requires forall i, j :: 0 <= i < |a| && 0 <= j < |b| ==> a[i] <= b[j]
    ensures Sorted(a + b)
  {
  }

  lemma MultisetTail(a: seq<real>)
    requires a != []
    ensures multiset(a[1..]) == multiset(a) - multiset{a[0]}
  {
    assert a == [a[0]] + a[1..];
  }
  lemma SortedTail(a: seq<real>)
    requires a != [] && Sorted(a)
    ensures Sorted(a[1..])
    ensures forall x :: x in multiset(a) ==> a[0] <= x
  {
    forall x | x in multiset(a) ensures a[0] <= x {
      var k :| 0 <= k < |a| && a[k] == x;
    }
  }
  /** There is only one sorted arrangement of a multiset of values, so the
      result of `Sort` does not depend on the order of its input. */
  lemma {:induction false} SortedUnique(a: seq<real>, b: seq<real>)
    requires Sorted(a) && Sorted(b)
    requires multiset(a) == multiset(b)
    ensures a == b
  {
    if a == [] {
      assert |b| == |multiset(b)| == 0;
    } else {
      assert |b| == |multiset(b)| > 0;
      SortedTail(a);
      SortedTail(b);
      assert a[0] in multiset(b) && b[0] in multiset(a);
      assert a[0] == b[0];
      MultisetTail(a);
      MultisetTail(b);
      SortedUnique(a[1..], b[1..]);
      HeadTailEqual(a, b);
    }
  }

  /** Sequences with the same first element and the same rest are equal. */
  lemma HeadTailEqual(a: seq<real>, b: seq<real>)
    requires a != [] && b != [] && a[0] == b[0] && a[1..] == b[1..]
    ensures a == b
  {
    assert a == [a[0]] + a[1..];
    assert b == [b[0]] + b[1..];
  }

  lemma SortPermutation(a: seq<real>, b: seq<real>)
    requires multiset(a) == multiset(b)
    ensures Sort(a) == Sort(b)
  {
    SortedUnique(Sort(a), Sort(b));
  }

  lemma SortOfSorted(s: seq<real>)
    requires Sorted(s)
    ensures Sort(s) == s
  {
    SortedUnique(Sort(s), s);
  }

  /** Every value of a sequence's first `cut` entries is at most every
      value of its remaining entries. */
  predicate PartitionedAt(p: seq<real>, cut: nat)
    requires cut <= |p|
  {
    forall i, j :: 0 <= i < cut <= j < |p| ==> p[i] <= p[j]
  }

  /** Sorting the sides of a partition keeps every value of the first side
      at most every value of the second. */
  lemma PartitionSidesOrdered(p: seq<real>, cut: nat, low: seq<real>, high: seq<real>)
    requires cut <= |p| && PartitionedAt(p, cut)
    requires low == Sort(p[..cut]) && high == Sort(p[cut..])
    ensures forall i, j :: 0 <= i < |low| && 0 <= j < |high| ==> low[i] <= high[j]
  {
    forall i, j | 0 <= i < |low| && 0 <= j < |high| ensures low[i] <= high[j] {
      assert low[i] in multiset(p[..cut]);
      assert high[j] in multiset(p[cut..]);
      var a :| 0 <= a < cut && p[..cut][a] == low[i];
      var b :| 0 <= b < |p| - cut && p[cut..][b] == high[j];
      assert p[a] <= p[cut + b];
    }
  }

  /** Sorting the two sides of a partition separately and concatenating
      them sorts the whole sequence. */
  lemma PartitionSorts(p: seq<real>, cut: nat)
    requires cut <= |p| && PartitionedAt(p, cut)
    ensures Sort(p[..cut]) + Sort(p[cut..]) == Sort(p)
  {
    var low, high, whole := Sort(p[..cut]), Sort(p[cut..]), Sort(p);
    PartitionSidesOrdered(p, cut, low, high);
    MultisetSplit(p, cut);
    ConcatSortedUnique(low, high, whole);
  }

  /** Splitting a sequence at `cut` divides its values between the sides. */
  lemma MultisetSplit(p: seq<real>, cut: nat)
    requires cut <= |p|
    ensures multiset(p[..cut]) + multiset(p[cut..]) == multiset(p)
  {
    assert p == p[..cut] + p[cut..];
  }

  /** Two sorted runs, the first below the second, that together hold the
      values of a sorted sequence concatenate to that sequence. */
  lemma ConcatSortedUnique(low: seq<real>, high: seq<real>, whole: seq<real>)
    requires Sorted(low) && Sorted(high) && Sorted(whole)
    requires forall i, j :: 0 <= i < |low| && 0 <= j < |high| ==> low[i] <= high[j]
    requires multiset(low) + multiset(high) == multiset(whole)
    ensures low + high == whole
  {
    SortedConcat(low, high);
    assert multiset(low + high) == multiset(low) + multiset(high);
    SortedUnique(low + high, whole);
  }

  /** A partition at `cut` (what `np.partition` leaves) holds in its tail
      exactly the values the sorted sequence holds there, in some order. */
  lemma PartitionTail(vals: seq<real>, p: seq<real>, cut: nat)
    requires multiset(p) == multiset(vals)
    requires cut <= |p| && PartitionedAt(p, cut)
    ensures |p| == |vals|
    ensures multiset(p[cut..]) == multiset(Sort(vals)[cut..])
  {
    assert |p| == |multiset(p)| == |vals|;
    PartitionSorts(p, cut);
    SortPermutation(p, vals);
    var low := Sort(p[..cut]);
    assert Sort(vals)[cut..] == Sort(p[cut..]);
  }

  /** `np.min` */
  function SeqMin(s: seq<real>): (r: real)
    requires |s| > 0
    ensures r in s
    ensures forall i :: 0 <= i < |s| ==> r <= s[i]
  {
    if |s| == 1 then s[0]
    else
      var m := SeqMin(s[1..]);
      assert forall i :: 1 <= i < |s| ==> s[i] == s[1..][i - 1];
      if s[0] <= m then s[0] else m
  }

  /** `np.max` */
  function SeqMax(s: seq<real>): (r: real)
    requires |s| > 0
    ensures r in s
    ensures forall i :: 0 <= i < |s| ==> s[i] <= r
  {
    if |s| == 1 then s[0]
    else
      var m := SeqMax(s[1..]);
      assert forall i :: 1 <= i < |s| ==> s[i] == s[1..][i - 1];
      if s[0] >= m then s[0] else m
  }

  /** A sorted sequence starts with its minimum and ends with its maximum. */
  lemma SortedEnds(s: seq<real>)
    requires |s| > 0
    ensures Sort(s)[0] == SeqMin(s)
    ensures Sort(s)[|s| - 1] == SeqMax(s)
  {
    SortedFirst(Sort(s), s);
    SortedLast(Sort(s), s);
  }

  /** In a sorted sequence the mean of a tail lies between the mean of the
      whole and the last value. */
  lemma SortedTailMean(s: seq<real>, cut: nat)
    requires Sorted(s) && cut < |s|
    ensures Mean(s) <= Mean(s[cut..]) <= s[|s| - 1]
  {
    var low, top := s[..cut], s[cut..];
    forall j | 0 <= j < |top| ensures s[cut] <= top[j] <= s[|s| - 1] {
      assert top[j] == s[cut + j];
    }
    MeanBounds(top, s[cut], s[|s| - 1]);
    forall i | 0 <= i < cut ensures low[i] <= Mean(top) {
      assert low[i] == s[i];
    }
    MeanBelow(low, top, Mean(top));
    assert low + top == s;
  }

  /** The first value of a sorted arrangement of some values is their
      minimum. */
  lemma SortedFirst(s: seq<real>, vals: seq<real>)
    requires |vals| > 0 && Sorted(s) && multiset(s) == multiset(vals)
    ensures |s| == |vals|
    ensures s[0] == SeqMin(vals)
  {
    assert |s| == |multiset(s)| == |vals|;
    assert SeqMin(vals) in multiset(s);
    var a :| 0 <= a < |s| && s[a] == SeqMin(vals);
    assert s[0] in multiset(vals);
    var c :| 0 <= c < |vals| && vals[c] == s[0];
  }

  /** The last value of a sorted arrangement of some values is their
      maximum. */
  lemma SortedLast(s: seq<real>, vals: seq<real>)
    requires |vals| > 0 && Sorted(s) && multiset(s) == multiset(vals)
    ensures |s| == |vals|
    ensures s[|s| - 1] == SeqMax(vals)
  {
    assert |s| == |multiset(s)| == |vals|;
    assert SeqMax(vals) in multiset(s);
    var b :| 0 <= b < |s| && s[b] == SeqMax(vals);
    assert s[|s| - 1] in multiset(vals);
    var d :| 0 <= d < |vals| && vals[d] == s[|s| - 1];
  }

  /** In a sorted arrangement of some values, the mean of a tail lies
      between the mean of the values and their maximum. */
  lemma SortedTailMeanOf(vals: seq<real>, s: seq<real>, cut: nat)
    requires |vals| > 0 && Sorted(s) && multiset(s) == multiset(vals) && cut < |vals|
    ensures |s| == |vals|
    ensures Mean(vals) <= Mean(s[cut..]) <= SeqMax(vals)
  {
    SortedLast(s, vals);
    SortedTailMean(s, cut);
    SumPermutation(s, vals);
  }

  /** The tail of a sorted arrangement holds some of the values, and every
      value left out is at most every value in the tail. */
  lemma SortedTailDominates(s: seq<real>, vals: seq<real>, cut: nat)
    requires Sorted(s) && multiset(s) == multiset(vals) && cut <= |s|
    ensures multiset(s[cut..]) <= multiset(vals)
    ensures forall x, j :: x in multiset(vals) - multiset(s[cut..]) && 0 <= j < |s| - cut ==> x <= s[cut..][j]
  {
    MultisetSplit(s, cut);
    forall x, j | x in multiset(vals) - multiset(s[cut..]) && 0 <= j < |s| - cut ensures x <= s[cut..][j] {
      assert x in multiset(s[..cut]);
      var i :| 0 <= i < cut && s[..cut][i] == x;
      assert s[i] <= s[cut + j];
    }
  }

  /** The mean of any non-empty slice of the sorted values lies between the
      smallest and the largest value. */
  lemma SortedSliceMeanBounds(vals: seq<real>, lo: nat, hi: nat)
    requires lo < hi <= |vals|
    ensures |Sort(vals)| == |vals|
    ensures SeqMin(vals) <= Mean(Sort(vals)[lo..hi]) <= SeqMax(vals)
  {
    var s := Sort(vals);
    SortedEnds(vals);
    var mid := s[lo..hi];
    forall k | 0 <= k < |mid| ensures SeqMin(vals) <= mid[k] <= SeqMax(vals) {
      assert mid[k] == s[lo + k];
    }
    MeanBounds(mid, SeqMin(vals), SeqMax(vals));
  }

  /** Two sequences that agree from `q` on agree on every slice there. */
  lemma SuffixSlice(u: seq<real>, s: seq<real>, q: nat, lo: nat, hi: nat)
    requires q <= lo <= hi <= |s| && q <= |u| && u[q..] == s[q..]
    ensures u[lo..hi] == s[lo..hi]
  {
    assert |u| == |s|;
    forall k | 0 <= k < hi - lo ensures u[lo..hi][k] == s[lo..hi][k] {
      assert u[lo + k] == u[q..][lo + k - q];
      assert s[lo + k] == s[q..][lo + k - q];
    }
  }

  /** Two sequences that agree before `q` agree on every slice there. */
  lemma PrefixSlice(u: seq<real>, s: seq<real>, q: nat, lo: nat, hi: nat)
    requires lo <= hi <= q <= |s| && q <= |u| && u[..q] == s[..q]
    ensures u[lo..hi] == s[lo..hi]
  {
    forall k | 0 <= k < hi - lo ensures u[lo..hi][k] == s[lo..hi][k] {
      assert u[lo + k] == u[..q][lo + k];
      assert s[lo + k] == s[..q][lo + k];
    }
  }

  function Square(x: real): (r: real)
    ensures r >= 0.0
  {
    x * x
  }

  function SquaredDeviations(s: seq<real>, m: real): (r: seq<real>)
    ensures |r| == |s|
    ensures forall i :: 0 <= i < |s| ==> r[i] >= 0.0
  {
    seq(|s|, i requires 0 <= i < |s| => Square(s[i] - m))
  }

  /** `np.var` with `ddof=0` (the population variance). */
  function Variance(s: seq<real>): real
    requires |s| > 0
  {
    Mean(SquaredDeviations(s, Mean(s)))
  }

  /** n copies of one value sum to n times that value and average to it. */
  lemma ConstantMean(s: seq<real>, c: real)
    requires |s| > 0
    requires forall i :: 0 <= i < |s| ==> s[i] == c
    ensures Mean(s) == c
  {
    MeanBounds(s, c, c);
  }

  /** The population variance is never negative. */
  lemma VarianceNonneg(s: seq<real>)
    requires |s| > 0
    ensures Variance(s) >= 0.0
  {
    var d := SquaredDeviations(s, Mean(s));
    MeanBounds(d, 0.0, SeqMax(d));
  }

  /** Equal values have zero population variance. */
  lemma VarianceOfConstant(s: seq<real>)
    requires |s| > 0
    requires forall i :: 0 <= i < |s| ==> s[i] == s[0]
    ensures Variance(s) == 0.0
  {
    var m := Mean(s);
    var d := SquaredDeviations(s, m);
    ConstantMean(s, s[0]);
    forall i | 0 <= i < |s| ensures d[i] == 0.0 {
      assert s[i] - m == 0.0;
    }
    ConstantMean(d, 0.0);
  }
}
