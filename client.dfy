/**
  The benchmark client from start to end: the sequential run produces the
  samples, and when the connection ends they are sorted in place and
  summarised.
*/
module Client {
  import opened Framing
  import opened RttDriver
  import opened Statistics

  /**
    A complete run followed by its report. The report is the summary of the
    kept round-trip times sorted ascending: it counts one sample per echo
    outside the warm-up window, its min and max are kept round-trip times,
    and every kept round-trip time lies between them. The report reads the
    first sample unconditionally, so at least one sample must be kept.
  */
  method Benchmark(message: seq<byte>, count: nat, warmup: nat, warmupOn: bool, sendAt: seq<int>, recvAt: seq<int>)
    returns (report: Report, sorted: seq<int>)
    requires |message| < MaxLength
    requires |sendAt| == count && |recvAt| == count
    requires Kept(warmupOn, warmup, count) >= 1
    ensures report.samples == Kept(warmupOn, warmup, count)
    ensures |sorted| >= 1 && Ascending(sorted)
    ensures multiset(sorted) == multiset(RoundTrips(sendAt, recvAt, count - report.samples))
    ensures report == Summary(sorted)
    ensures report.min <= report.p50 <= report.p90 <= report.p99 <= report.max
    ensures report.samples * report.min <= report.total <= report.samples * report.max
    ensures forall j :: 0 <= j < count && count - report.samples <= j ==>
              report.min <= recvAt[j] - sendAt[j] <= report.max
    ensures exists j :: count - report.samples <= j < count && report.min == recvAt[j] - sendAt[j]
    ensures exists j :: count - report.samples <= j < count && report.max == recvAt[j] - sendAt[j]
  {
    var samples, _ := Run(message, count, warmup, warmupOn, sendAt, recvAt);
    RoundTripsOf(samples, sendAt, recvAt, count - |samples|);
    report, sorted := Summarize(samples);
    ReportOfKept(count, sendAt, recvAt, samples, sorted, report);
  }

  /** The `end` handler on the collected samples: copy them into an array, sort it in place and summarise it. */
  method Summarize(samples: seq<int>) returns (report: Report, sorted: seq<int>)
    requires |samples| >= 1
    ensures |sorted| == |samples| && Ascending(sorted) && multiset(sorted) == multiset(samples)
    ensures report == Summary(sorted)
  {
    var rtts := new int[|samples|](k requires 0 <= k < |samples| => samples[k]);
    assert rtts[..] == samples;
    report := OnEnd(rtts);
    sorted := rtts[..];
    assert |multiset(sorted)| == |multiset(samples)|;
  }

  /**
    The summary of the kept round-trip times, sorted: it counts them, its
    figures are ordered, its min and max are kept round-trip times, and
    every kept round-trip time, and so the average, lies between them.
  */
  lemma ReportOfKept(count: nat, sendAt: seq<int>, recvAt: seq<int>, samples: seq<int>, sorted: seq<int>, report: Report)
    requires |sendAt| == count && |recvAt| == count && 1 <= |samples| <= count
    requires samples == RoundTrips(sendAt, recvAt, count - |samples|)
    requires |sorted| == |samples| && Ascending(sorted) && multiset(sorted) == multiset(samples)
    requires report == Summary(sorted)
    ensures report.samples == |samples|
    ensures report.min <= report.p50 <= report.p90 <= report.p99 <= report.max
    ensures report.samples * report.min <= report.total <= report.samples * report.max
    ensures forall j :: 0 <= j < count && count - report.samples <= j ==>
              report.min <= recvAt[j] - sendAt[j] <= report.max
    ensures exists j :: count - report.samples <= j < count && report.min == recvAt[j] - sendAt[j]
    ensures exists j :: count - report.samples <= j < count && report.max == recvAt[j] - sendAt[j]
  {
    KeptInSorted(count, sendAt, recvAt, samples, sorted);
    KeptTime(count, sendAt, recvAt, samples, sorted, report.min);
    KeptTime(count, sendAt, recvAt, samples, sorted, report.max);
  }

  /** Every kept round-trip time is among the sorted samples. */
  lemma KeptInSorted(count: nat, sendAt: seq<int>, recvAt: seq<int>, samples: seq<int>, sorted: seq<int>)
    requires |sendAt| == count && |recvAt| == count && |samples| <= count
    requires samples == RoundTrips(sendAt, recvAt, count - |samples|)
    requires multiset(sorted) == multiset(samples)
    ensures forall j :: count - |samples| <= j < count ==> recvAt[j] - sendAt[j] in sorted
  {
    forall j | count - |samples| <= j < count
      ensures recvAt[j] - sendAt[j] in sorted
    {
      var k := j - (count - |samples|);
      assert samples[k] == recvAt[j] - sendAt[j];
      assert samples[k] in multiset(samples);
    }
  }

  /** A value among the sorted samples is the round-trip time of one of the kept requests. */
  lemma KeptTime(count: nat, sendAt: seq<int>, recvAt: seq<int>, samples: seq<int>, sorted: seq<int>, x: int)
    requires |sendAt| == count && |recvAt| == count && |samples| <= count
    requires samples == RoundTrips(sendAt, recvAt, count - |samples|)
    requires multiset(sorted) == multiset(samples) && x in sorted
    ensures exists j :: count - |samples| <= j < count && x == recvAt[j] - sendAt[j]
  {
    assert x in multiset(samples);
    var k :| 0 <= k < |samples| && samples[k] == x;
    var j := count - |samples| + k;
    assert x == recvAt[j] - sendAt[j];
  }
}
