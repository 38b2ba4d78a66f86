/**
 * The load test run of main.go without its I/O: one result per launched
 * request, then the drain of the results channel into the status-code
 * histogram and the success counter that the report prints.
 */
module LoadTest {
  import opened Results
  import opened Counting

  /**
   * What the HTTP client and the clock report for one launched request:
   * the response code or error, and the elapsed time in nanoseconds.
   */
  datatype Attempt = Attempt(outcome: Outcome, duration: int)

  /** Everything the run hands to the report: the records and their accounting. */
  datatype Report = Report(results: seq<Result>, statusCodeCounts: map<int, int>, totalSuccess: int)

  /**
   * A run either dies when the results channel is created with a negative
   * capacity (`make` panics), or completes with a report.
   */
  datatype RunOutcome = ChannelPanic | Completed(report: Report)

  /**
   * The drain loop: every record read from the channel bumps the count of
   * its code (a missing key reads as zero) and, when its code is in
   * [200, 300), the success counter.
   */
  method Aggregate(results: seq<Result>) returns (statusCodeCounts: map<int, int>, totalSuccess: int)
    ensures forall c :: c in statusCodeCounts <==> CountOf(results, c) > 0
    ensures forall c :: c in statusCodeCounts ==> statusCodeCounts[c] == CountOf(results, c)
    ensures statusCodeCounts == Histogram(results)
    ensures totalSuccess == SuccessCount(results)
  {
    statusCodeCounts := map[];
    totalSuccess := 0;
    for i := 0 to |results|
      invariant statusCodeCounts == Histogram(results[..i])
      invariant totalSuccess == SuccessCount(results[..i])
    {
      var result := results[i];
      assert results[..i + 1] == results[..i] + [result];
      HistogramSnoc(results[..i], result);
      SuccessCountSnoc(results[..i], result);
      statusCodeCounts := Bump(statusCodeCounts, result.statusCode);
      if result.statusCode >= SuccessLow && result.statusCode < SuccessHigh {
        totalSuccess := totalSuccess + 1;
      }
    }
    assert results[..|results|] == results;
    HistogramCounts(results);
  }

  /**
   * The whole run: `totalRequests` requests are launched, each leaving
   * exactly one record, and the records are aggregated. `attempt(i)` is what
   * the network and the clock report for the i-th launched request. The
   * records are listed in launch order; the channel may deliver them in any
   * other order, and the report is the same for every such order.
   */
  method Run(totalRequests: int, attempt: nat -> Attempt) returns (run: RunOutcome)
    ensures run.ChannelPanic? <==> totalRequests < 0
    ensures run.Completed? ==>
              |run.report.results| == totalRequests
              && forall i :: 0 <= i < totalRequests ==>
                   run.report.results[i] == Classify(attempt(i).outcome, attempt(i).duration)
    ensures run.Completed? ==>
              run.report.statusCodeCounts == Histogram(run.report.results)
              && run.report.totalSuccess == SuccessCount(run.report.results)
    ensures run.Completed? ==>
              TotalCount(run.report.statusCodeCounts) == totalRequests
              && 0 <= run.report.totalSuccess <= totalRequests
              && run.report.totalSuccess + TotalCount(OtherEntries(run.report.statusCodeCounts)) == totalRequests
    ensures run.Completed? ==>
              forall arrived :: multiset(arrived) == multiset(run.report.results) ==>
                Histogram(arrived) == run.report.statusCodeCounts
                && SuccessCount(arrived) == run.report.totalSuccess
  {
    if totalRequests < 0 {
      return ChannelPanic;
    }
    var results: seq<Result> := [];
    for i := 0 to totalRequests
      invariant |results| == i
      invariant forall k :: 0 <= k < i ==> results[k] == Classify(attempt(k).outcome, attempt(k).duration)
    {
      var a := attempt(i);
      results := results + [Classify(a.outcome, a.duration)];
    }
    var statusCodeCounts, totalSuccess := Aggregate(results);
    HistogramTotal(results);
    ReportAccountsForAll(results);
    forall arrived | multiset(arrived) == multiset(results)
      ensures Histogram(arrived) == statusCodeCounts && SuccessCount(arrived) == totalSuccess
    {
      HistogramOrderIndependent(arrived, results);
    }
    run := Completed(Report(results, statusCodeCounts, totalSuccess));
  }
}
