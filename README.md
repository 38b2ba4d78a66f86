# stress-test: verified model of the result accounting

`stress-test` is a small Go command-line load tester. It sends `--requests`
HTTP GET requests to `--url`. A semaphore keeps at most `--concurrency` of
them in flight at once. Each request goroutine sends one `Result` (status
code and elapsed time) on a buffered channel. When every goroutine is done,
`main` drains the channel into a histogram of status codes and a success
counter, and prints a report.

This Dafny project models the logic of that run and proves its accounting:

- `results.dfy` (module `Results`): the `Result` record and how one attempt
  becomes exactly one record. A transport error becomes the sentinel code 0,
  and a response keeps its own code. The duration is carried through in both
  cases. The module also holds the success test `[200, 300)` and the report's
  filter for "other" status codes.
- `counting.dfy` (module `Counting`): a reference specification of the
  accounting. It defines how many records carry a code, the histogram those
  counts form, and the sum of a histogram's counts. It also holds the lemmas
  the report relies on:
  - the counts add up to the number of records;
  - the success counter is the 2xx part of the histogram;
  - success plus the listed "other" codes covers every request;
  - the outcome does not depend on the order in which the channel delivers
    the records.
- `loadtest.dfy` (module `LoadTest`): the launch loop (main.go:45-68) and the
  drain loop (main.go:81-86) of `main`, as methods.
  - `Aggregate` is the drain loop, proved against the reference histogram.
  - `Run` launches `totalRequests` attempts, creates one record per attempt,
    and aggregates them. It panics (modelled as `ChannelPanic`) when
    `totalRequests` is negative, because `make(chan Result, n)` rejects a
    negative capacity.

Facts about `main.go` that shape the model:
- It starts one goroutine per request, and a semaphore of size `concurrency`
  bounds how many run at once (main.go:43-52).
- A negative request count panics when the results channel is created with
  `make` (main.go:39).
- Line 89 labels the success counter "status HTTP 200", but the counter counts
  all of `[200, 300)` (main.go:83). `Counting.SuccessCountsAll2xx` states
  exactly when the two agree.

## Model

| member | source | states |
|---|---|---|
| `Results.Classify` | main.go:54-66 | an attempt yields one record: on a transport error its code is 0, otherwise it is the response's code; the measured duration is kept unchanged in both cases |
| `Results.ClassifiedFailure` | main.go:58-66 | a record has code 0 iff the attempt failed or the response itself carried 0; a failed attempt is never a success and is always listed among "other" codes |
| `Results.ListedAsOther` | main.go:93 | a histogram entry is listed as an "other" code iff its code is outside [200, 300) (the `!= 200` test is redundant); code 0 is always listed |
| `Counting.CountInRange` | main.go:81-85 | the number of records with a code in a range is at most the number of records; it is 0 iff no record's code is in the range, and it is all of them iff every record's code is |
| `Counting.Bump` | main.go:82 | `counts[code]++` adds `code` to the keys, sets its count to the old count (0 when absent) plus one, and leaves every other entry alone |
| `Counting.HistogramCounts` | main.go:81-82 | the histogram has a key for exactly the codes some record carries, and each key maps to the number of records with that code |
| `Counting.HistogramSnoc` | main.go:81-82 | reading one more record changes the histogram by exactly one increment of that record's code |
| `Counting.SuccessCountSnoc` | main.go:83-85 | reading one more record raises the success count by one iff its code is in [200, 300) |
| `Counting.HistogramTotal` | main.go:78-82 | the histogram's counts add up to the number of records consumed |
| `Counting.TotalCountSplit` | main.go:92-93 | a histogram's total is the total of its 2xx entries plus the total of the entries the report lists as "other" |
| `Counting.SuccessIsHistogram2xx` | main.go:83-85 | the success count equals the sum of the histogram entries whose code is in [200, 300) |
| `Counting.ReportAccountsForAll` | main.go:83-93 | success count plus the counts listed as "other" codes equals the number of records; the success count is at most that number |
| `Counting.SuccessCountsAll2xx` | main.go:83-89 | the counter printed as "status HTTP 200" is at least the number of 200s, and equals it iff no record carries another 2xx code |
| `Counting.CountInRangePermutation` | main.go:81-86 | any two orderings of the same records have the same count in every code range |
| `Counting.HistogramOrderIndependent` | main.go:81-86 | any two orderings of the same records produce the same histogram and the same success count |
| `LoadTest.Aggregate` | main.go:78-86 | the drain loop produces a map with a key for exactly the codes seen, each mapped to the number of records with it, and a success counter equal to the number of 2xx records |
| `LoadTest.Run` | main.go:39-88 | a negative request count panics; otherwise exactly `totalRequests` records are produced, one classified record per attempt, and the histogram is the reference histogram of those records. The histogram's total is `totalRequests`. Success count plus listed "other" counts also equals `totalRequests`, with 0 <= success <= `totalRequests`. Every delivery order of the records gives the same report |

## Left out

- Flag parsing, the required `--url` check and `os.Exit` (main.go:19-32) are left out: they are command-line I/O. The model starts from the parsed request count.
- `http.Get`, reading and closing the body (main.go:55, 63-64) are left out: they are network I/O through a library. Each attempt's outcome is a parameter (`LoadTest.Attempt`): a transport error or a response code. The model does not restrict response codes, so a response carrying code 0 would be counted together with transport failures (`Results.ClassifiedFailure`).
- The clock (`time.Now`, `time.Since`, total elapsed time; main.go:38, 54-56, 72-73) is left out. Durations are opaque integers carried through unchanged, and the total run time is not modelled.
- Goroutines, the semaphore, the `sync.WaitGroup` and the results channel (main.go:40-51, 70-71) are left out as concurrency. The model does not capture the bound of `concurrency` requests in flight. It also does not capture the blocking when `concurrency` is 0 or the panic when it is negative. Records are taken as an already collected sequence in launch order; `LoadTest.Run` and `Counting.HistogramOrderIndependent` cover every other arrival order.
- The printed report (main.go:34-36, 75-76, 88-96), the per-error message (main.go:59) and `http.StatusText` are left out as formatting. Only the filter of line 93 is kept, as `Results.ListedAsOther`.
- Go's `int` (32 or 64 bits, depending on the platform) is modelled as an unbounded integer. Every count is at most the request count, which is itself an `int`, so no count can overflow at either width.
- LoadTest.Run: assumes that every `http.Get` call and every `io.ReadAll` of a body returns (main.go:55, 64), and that `concurrency >= 1` (main.go:43-47). The default client has no timeout. A server that never answers, or never ends its body, keeps its goroutine alive, so `wg.Wait()` (main.go:70) never returns and no report is printed. With `concurrency` 0 and at least one request, the semaphore send blocks forever; a negative `concurrency` panics at `make`. It also assumes that the results buffer of `totalRequests` records can always be allocated. `make` at main.go:39 also panics when the buffer would exceed the runtime's allocation limit, and a large buffer can run out of memory before that. So `Run`'s `ChannelPanic? <==> totalRequests < 0` holds only under that assumption. In all these cases the real program never completes, while `Run` returns `Completed` for every non-negative request count.
