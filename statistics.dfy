/**
  The end-of-run report: the samples are sorted in place, ascending, and
  the report gives their number, the minimum, the nearest-rank 50th, 90th
  and 99th percentiles, the maximum and their total (the average is the
  total divided by the number of samples). Samples stay integer
  nanoseconds: scaling every sample by the same positive factor does not
  change which one each statistic picks.
*/
module Statistics {

  /** Every sample is at most every later one. */
  predicate Ascending(s: seq<int>)
  {
    forall i, j :: 0 <= i <= j < |s| ==> s[i] <= s[j]
  }

  lemma MulMonotone(a: nat, b: nat, n: nat)
    requires a <= b
    ensures a * n <= b * n
  {
  }

  function Min(a: int, b: int): (m: int)
    ensures m <= a && m <= b && (m == a || m == b)
  {
    if a < b then a else b
  }

  /**
    The nearest-rank index for percentile `p` of `n` sorted samples:
    min(n - 1, ceil(p / 100 * n) - 1), with the ceiling taken exactly. It is
    the smallest index at or below which lie at least `p` percent of the
    samples, and it is always a valid index.
  */
  function PercentileIndex(n: nat, p: nat): (i: nat)
    requires n >= 1 && 0 < p <= 100
    ensures i < n
    ensures 100 * (i + 1) >= p * n
    ensures 100 * i < p * n
  {
    MulMonotone(1, p, n);
    MulMonotone(p, 100, n);
    var rank := (p * n + 99) / 100;
    Min(n - 1, rank - 1)
  }

  /** A higher percentile never picks an earlier sample. */
  lemma PercentileIndexMonotone(n: nat, p: nat, q: nat)
    requires n >= 1 && 0 < p <= q <= 100
    ensures PercentileIndex(n, p) <= PercentileIndex(n, q)
  {
    MulMonotone(p, q, n);
  }

  /** The sample at the nearest-rank index of percentile `p`. */
  function Percentile(sorted: seq<int>, p: nat): (v: int)
    requires |sorted| >= 1 && 0 < p <= 100
    ensures v in sorted
  {
    sorted[PercentileIndex(|sorted|, p)]
  }

  /** On ascending samples, percentiles are ordered like their ranks and lie between the first and the last sample. */
  lemma PercentileOrdered(sorted: seq<int>, p: nat, q: nat)
    requires |sorted| >= 1 && Ascending(sorted) && 0 < p <= q <= 100
    ensures sorted[0] <= Percentile(sorted, p) <= Percentile(sorted, q) <= sorted[|sorted| - 1]
  {
    PercentileIndexMonotone(|sorted|, p, q);
  }

  /** The sum of the samples, added from the first to the last. */
  function Sum(s: seq<int>): (total: int)
  {
    if s == [] then 0 else Sum(s[..|s| - 1]) + s[|s| - 1]
  }

  /** If every sample lies in [lo, hi], their sum lies between n * lo and n * hi. */
  lemma {:induction false} SumBounds(s: seq<int>, lo: int, hi: int)
    requires forall i :: 0 <= i < |s| ==> lo <= s[i] <= hi
    ensures |s| * lo <= Sum(s) <= |s| * hi
  {
    if s != [] {
      var init := s[..|s| - 1];
      assert forall i :: 0 <= i < |init| ==> init[i] == s[i];
      SumBounds(init, lo, hi);
      assert |s| * lo == |init| * lo + lo;
      assert |s| * hi == |init| * hi + hi;
    }
  }

  datatype Report = Report(samples: nat, min: int, p50: int, p90: int, p99: int, max: int, total: int)

  /**
    The figures of the report, read off the sorted samples. They come out
    ordered, min and max bound every sample, and the total lies between
    samples * min and samples * max, so the average lies between min and max.
  */
  function Summary(sorted: seq<int>): (r: Report)
    requires |sorted| >= 1 && Ascending(sorted)
    ensures r.samples == |sorted|
    ensures r.min <= r.p50 <= r.p90 <= r.p99 <= r.max
    ensures forall x <- sorted :: r.min <= x <= r.max
    ensures r.min in sorted && r.max in sorted
    ensures r.samples * r.min <= r.total <= r.samples * r.max
  {
    PercentileOrdered(sorted, 50, 90);
    PercentileOrdered(sorted, 90, 99);
    SumBounds(sorted, sorted[0], sorted[|sorted| - 1]);
    Report(|sorted|, sorted[0], Percentile(sorted, 50), Percentile(sorted, 90), Percentile(sorted, 99),
           sorted[|sorted| - 1], Sum(sorted))
  }

  /** Sort the samples in place, ascending; the result is a rearrangement of the samples. */
  method SortAscending(a: array<int>)
    modifies a
    ensures Ascending(a[..])
    ensures multiset(a[..]) == multiset(old(a[..]))
  {
    var i := 0;
    while i < a.Length
      invariant 0 <= i <= a.Length
      invariant forall k, l :: 0 <= k <= l < i ==> a[k] <= a[l]
      invariant multiset(a[..]) == multiset(old(a[..]))
    {
      InsertInto(a, i);
      i := i + 1;
    }
  }

  /** Move `a[i]` down into the ascending prefix `a[..i]`, leaving `a[..i + 1]` ascending and the samples after it untouched. */
  method InsertInto(a: array<int>, i: nat)
    requires i < a.Length
    requires forall k, l :: 0 <= k <= l < i ==> a[k] <= a[l]
    modifies a
    ensures forall k, l :: 0 <= k <= l <= i ==> a[k] <= a[l]
    ensures a[i + 1..] == old(a[i + 1..])
    ensures multiset(a[..]) == multiset(old(a[..]))
  {
    var j := i;
    while j > 0 && a[j - 1] > a[j]
      invariant 0 <= j <= i
      invariant forall k, l :: 0 <= k <= l <= i && k != j && l != j ==> a[k] <= a[l]
      invariant forall k, l :: 0 <= k < j < l <= i ==> a[k] <= a[l]
      invariant forall l :: j < l <= i ==> a[j] <= a[l]
      invariant a[i + 1..] == old(a[i + 1..])
      invariant multiset(a[..]) == multiset(old(a[..]))
    {
      a[j - 1], a[j] := a[j], a[j - 1];
      j := j - 1;
    }
  }

  /** The end of the run: sort the collected samples, then compute the report from them. */
  method OnEnd(rtts: array<int>) returns (report: Report)
    requires rtts.Length >= 1
    modifies rtts
    ensures Ascending(rtts[..]) && multiset(rtts[..]) == multiset(old(rtts[..]))
    ensures report == Summary(rtts[..])
  {
    SortAscending(rtts);
    report := Summary(rtts[..]);
  }
}
