# WebDAV stress test and test server, modelled in Dafny

This project models the two Python programs of the repository that hold logic
of their own.

- The HEAD-request stress test builds one request per count. Each request goes
  to `<base>/evidence/XX`: the base URL without trailing slashes, then a random
  byte as two upper-case hex digits. Every request carries the Basic
  `Authorization` header that aiohttp derives from the configured user name and
  password. When a request finishes, `fetch_head` folds its outcome into a
  shared statistics record: a successful counter, a failed counter, a counter
  per status label and a list of elapsed times. While the tasks are built, the
  loop prints progress every 1000 tasks and after the last one, and pauses
  every 10000. At the end it
  prints the label distribution in sorted order.
- The test server answers HEAD requests. `authenticate` checks an HTTP Basic
  header (RFC 7617 section 2) against fixed credentials. It never raises: any
  malformed header is a rejection. `do_HEAD` then answers 401 with a challenge
  (RFC 7235 section 3.1), 200 for paths under `/evidence/`, or 404.
  Throughout, it keeps the user name that the access log will show.

Modules, one per file:

- `Wrappers`: Option and Result.
- `Text`: ASCII lower-casing, latin-1 encoding, `startswith`, and the
  `split(sep, 1)` unpacking.
- `Base64`: `b64encode` and the non-validating `b64decode`.
- `WebDavServer`: the constants, the credential check, and the `Handler`
  class with `username_for_log` and the emitted status lines and headers.
- `StressClient`: hex suffix, `rstrip('/')`, target URL, Basic header, the task
  loop and the progress schedule.
- `StressStats`: outcomes, labels, the statistics record as a class, and the
  fold.
- `StressReport`: string order, the sorted distribution and its printed lines.
- `EndToEnd`: the client's requests as the server judges them.

How things are modelled:

- Request outcomes are inputs: `Response(status) | ClientError | Timeout`.
- The random bytes are inputs, one per loop iteration, each below 256.
- The completion order of the gathered tasks is an input sequence.
  `OrderIndependent` proves that this order cannot change the two counters or
  the label counter. The timing list keeps the completion order.
- Base64 decoding follows CPython's `binascii.a2b_base64` with strict mode off.
  A `str` argument that is not ASCII is an error. Other characters outside the
  RFC 4648 section 4 alphabet are skipped. `=` counts as padding only in the
  third or fourth position of a quantum. Padding that completes a quantum ends
  decoding, so any text after it is ignored. One leftover data character is an
  error, and so are two or three without padding.

Where the program's own texts and its code disagree, the model follows the code:

- The report labels the successful counter "Successful Requests (2xx)". The
  code counts every HTTP response as successful, a 404 or 500 included
  (`ErrorStatusCountsAsSuccess`).
- Transport failures get two labels, not one: `NetworkError` for
  `aiohttp.ClientError` and `Timeout` for an `asyncio.TimeoutError` that is not
  also an `aiohttp.ClientError`. aiohttp's connect timeouts are both, and the
  `ClientError` clause comes first, so they count as `NetworkError`.
- Requests are not sent in batches. All tasks are created first and then
  awaited together; the semaphore bounds how many are in flight.
- A request count of zero or below is not refused. `range` runs no iteration,
  so no task is created and the report still follows.

## Model

| member | source | states |
|---|---|---|
| `Base64.Decode` | simple_webdav_server.py:65 | b64decode of a str fails with the non-ASCII error exactly when the text is not ASCII |
| `Base64.Encode` | py_webdav_stress_test.py:57 | b64encode: four characters per started group of three bytes, empty only for no bytes; see EncodeShape and RoundTrip |
| `Base64.RoundTrip` | simple_webdav_server.py:65 | decoding what b64encode produced gives back exactly the original bytes |
| `Base64.TrailingTextIgnored` | simple_webdav_server.py:65 | after a padded final group, any further ASCII text leaves the decoded bytes unchanged |
| `Base64.DecodeIgnoresIrrelevant` | simple_webdav_server.py:65 | on ASCII text, decoding equals decoding the text with every non-alphabet, non-`=` character removed |
| `Base64.EncodeShape` | py_webdav_stress_test.py:57 | b64encode writes 4 characters per started 3-byte group, all from the alphabet or `=`, hence ASCII |
| `Text.Lower` | simple_webdav_server.py:64 | `scheme.lower()`: same length, each character lower-cased; see SchemeMatchIff |
| `Text.SplitOnce` | simple_webdav_server.py:63 | `split(sep, 1)` unpacks into two parts exactly when sep occurs; the first part has no sep and the parts rejoin to the input |
| `Text.SplitOnceJoin` | simple_webdav_server.py:66 | only the first separator splits: a + sep + b splits into (a, b) even when b contains sep |
| `WebDavServer.ConstantsAscii` | simple_webdav_server.py:10-11 | the expected credential bytes are USERNAME, one colon byte, PASSWORD, and USERNAME holds no colon |
| `WebDavServer.CheckAuthorization` | simple_webdav_server.py:62-75 | the only user name ever accepted is "testuser"; a header without a space is rejected as malformed |
| `WebDavServer.CredentialsMatchIff` | simple_webdav_server.py:66-68 | splitting the decoded credentials at the first colon gives (USERNAME, PASSWORD) iff they are exactly "testuser:testpassword" |
| `WebDavServer.AcceptsExactly` | simple_webdav_server.py:63-70 | a header "scheme rest" is accepted iff the scheme lower-cases to "basic" and rest decodes to the expected credentials |
| `WebDavServer.SchemeMatchIff` | simple_webdav_server.py:64 | the scheme lower-cases to "basic" iff it has five letters, each the lower- or upper-case letter of "basic" |
| `WebDavServer.SchemeDecides` | simple_webdav_server.py:63-64 | a first word other than "basic" in any case is rejected whatever follows |
| `WebDavServer.LogName` | simple_webdav_server.py:57-75 | username_for_log is "-" with no header, "testuser" iff the header is accepted, "invalid_user" for every rejected header |
| `WebDavServer.Handler.constructor` | simple_webdav_server.py:17 | a new handler logs "-" and has sent nothing |
| `WebDavServer.Handler.Authenticate` | simple_webdav_server.py:57-75 | returns true iff a header is present and accepted; username_for_log becomes LogName of the header |
| `WebDavServer.HeadReply` | simple_webdav_server.py:43-55 | each answer starts with exactly one status line and ends with end_headers |
| `WebDavServer.HeadDecision` | simple_webdav_server.py:43-55 | 401 iff not authorized, with the `Basic realm="WebDAV Test Realm"` challenge only then; 200 iff authorized and under /evidence/; 404 iff authorized and not |
| `WebDavServer.Handler.DoHead` | simple_webdav_server.py:37-55 | appends HeadReply for the authentication result and path; username_for_log depends on the header only, never on the previous request |
| `StressClient.HexByte` | py_webdav_stress_test.py:78 | f"{n:02X}" is two upper-case hex digits |
| `StressClient.HexByteRoundTrip` | py_webdav_stress_test.py:78 | int(f"{n:02X}", 16) == n for 0 <= n <= 255 |
| `StressClient.HexByteInjective` | py_webdav_stress_test.py:78 | distinct bytes give distinct suffixes |
| `StressClient.StripTrailingSlashes` | py_webdav_stress_test.py:79 | rstrip('/') yields a prefix that does not end in '/' and is followed only by slashes |
| `StressClient.StripUnique` | py_webdav_stress_test.py:79 | those three properties determine rstrip('/') uniquely |
| `StressClient.StripIdempotent` | py_webdav_stress_test.py:79 | stripping twice equals stripping once |
| `StressClient.StripIgnoresSlashes` | py_webdav_stress_test.py:79 | appending any number of slashes to the base does not change the stripped base |
| `StressClient.TargetPath` | py_webdav_stress_test.py:79 | the path is 12 characters, starts with "/evidence/" and ends with the hex suffix |
| `StressClient.TargetUrl` | py_webdav_stress_test.py:79 | `f"{base.rstrip('/')}/evidence/{hex}"`: the stripped base, then 12 path characters ending in the hex suffix; see TargetUrlShape, TargetUrlIgnoresSlashes, TargetUrlInjective |
| `StressClient.TargetUrlShape` | py_webdav_stress_test.py:79 | the URL is the stripped base (never ending in '/') then the path, and its last two characters read back as n |
| `StressClient.TargetUrlIgnoresSlashes` | py_webdav_stress_test.py:79 | a base with one or many trailing slashes yields the same URL |
| `StressClient.TargetUrlInjective` | py_webdav_stress_test.py:78-79 | on one base, equal URLs come from equal draws |
| `StressClient.BasicAuthorization` | py_webdav_stress_test.py:57 | the header exists iff the login has no ':' and everything is latin-1, and then starts with "Basic " |
| `StressClient.ProgressAfter` | py_webdav_stress_test.py:83-88 | after task k there is a notice iff k is a multiple of 1000 or the last task; it is the pause notice iff k is a multiple of 10000 |
| `StressClient.ProgressLogContents` | py_webdav_stress_test.py:83-89 | after n iterations the log holds a notice for k exactly when k <= n and the schedule calls for one, in increasing k |
| `StressClient.PauseCount` | py_webdav_stress_test.py:83-86 | n iterations pause floor(n / 10000) times |
| `StressClient.BuildTasks` | py_webdav_stress_test.py:77-89 | one task per iteration, task i targets the URL for draw i, no task for a count below one; the log is the schedule's |
| `StressStats.Decimal` | py_webdav_stress_test.py:15 | str(status) is a non-empty string of decimal digits |
| `StressStats.DecimalRoundTrip` | py_webdav_stress_test.py:15 | int(str(n)) == n |
| `StressStats.Label` | py_webdav_stress_test.py:15-21 | the key an outcome is counted under: non-empty, starting with a digit iff it is a response; see LabelInjective |
| `StressStats.SentinelsAreNotCodes` | py_webdav_stress_test.py:15-21 | no status code's label is "NetworkError" or "Timeout" |
| `StressStats.LabelInjective` | py_webdav_stress_test.py:15-21 | two outcomes share a label iff they are the same outcome |
| `StressStats.Bump` | py_webdav_stress_test.py:24 | Counter increment: the label is present with its old count (0 if absent) plus one; other labels are unchanged |
| `StressStats.Successes` | py_webdav_stress_test.py:14-16 | the successful counter after folding the outcomes, at most their number; see CountersPartition and ErrorStatusCountsAsSuccess |
| `StressStats.Failures` | py_webdav_stress_test.py:17-22 | the failed counter after folding the outcomes, at most their number; see CountersPartition and FailuresAsMultiplicities |
| `StressStats.Tally` | py_webdav_stress_test.py:24 | the label counter after folding the outcomes: empty iff there are none, holding the last outcome's label; see TallyCounts, TallyTotal and OrderIndependent |
| `StressStats.CountersPartition` | py_webdav_stress_test.py:14-22 | successful + failed equals the number of folded outcomes |
| `StressStats.TallyCounts` | py_webdav_stress_test.py:24 | the label counter holds a label iff some outcome carries it, with the number of outcomes that do |
| `StressStats.OccurrencesOfLabel` | py_webdav_stress_test.py:24 | the count under an outcome's label is that outcome's multiplicity |
| `StressStats.OrderIndependent` | py_webdav_stress_test.py:91 | two completion orders of the same outcomes give the same counters and label counter |
| `StressStats.TallyTotal` | py_webdav_stress_test.py:16-24 | the label counts sum to successful + failed, which is the number of outcomes |
| `StressStats.ErrorStatusCountsAsSuccess` | py_webdav_stress_test.py:14-16 | after any earlier run, a response with any status code adds one success, no failure and one to the label of its code |
| `StressStats.UniformRun` | py_webdav_stress_test.py:14-24 | n equal outcomes give one label with count n, all in the counter of their kind |
| `StressStats.RunStats.constructor` | py_webdav_stress_test.py:40-46 | the record starts zeroed with the configured total and is consistent with no outcomes |
| `StressStats.RunStats.Record` | py_webdav_stress_test.py:10-26 | a response adds one to successful only, an error or timeout one to failed only; one label count and one timing are added |
| `StressStats.RunStats.RecordAll` | py_webdav_stress_test.py:91 | folding the finished tasks in order keeps the record consistent with all outcomes so far |
| `StressStats.StatsInvariant` | py_webdav_stress_test.py:24-26 | a consistent record's label counts sum to successful + failed == length of the timing list |
| `StressReport.BelowIrreflexive` | py_webdav_stress_test.py:107 | no label sorts before itself |
| `StressReport.BelowTransitive` | py_webdav_stress_test.py:107 | Python string order is transitive |
| `StressReport.BelowTotal` | py_webdav_stress_test.py:107 | of two different labels one sorts before the other |
| `StressReport.LeastExists` | py_webdav_stress_test.py:107 | every non-empty set of labels has a least one |
| `StressReport.SortedItems` | py_webdav_stress_test.py:107 | the items in strictly ascending label order, every (label, count) pair exactly once and nothing else |
| `StressReport.ReportLine` | py_webdav_stress_test.py:108 | `f"{status}: {count} requests"`: the label, then ':'; see ReportLineRoundTrip |
| `StressReport.PrintDistribution` | py_webdav_stress_test.py:107-108 | line i is "label: count requests" for the i-th pair of the counter in strictly ascending label order; every pair is printed exactly once |
| `StressReport.ReportLineRoundTrip` | py_webdav_stress_test.py:108 | a line reads back to its own (label, count) pair when the label holds no ':' |
| `StressReport.LinesReadBack` | py_webdav_stress_test.py:107-108 | every printed line reads back to the pair it was printed for |
| `StressReport.LinesDistinct` | py_webdav_stress_test.py:107-108 | no line of the distribution is printed twice |
| `StressReport.LabelHasNoColon` | py_webdav_stress_test.py:15-21 | no label holds ':', so every label's line reads back |
| `StressReport.CounterKeysHaveNoColon` | py_webdav_stress_test.py:24 | no key of the label counter holds ':' |
| `EndToEnd.ClientHeaderAccepted` | py_webdav_stress_test.py:57 | the server accepts the client's header iff the client was given "testuser" and "testpassword" |
| `EndToEnd.TargetsServed` | simple_webdav_server.py:50-55 | with a bare-origin base URL, every generated path is answered 200 when authorized and 401 otherwise |
| `EndToEnd.ServerCredentialsAccepted` | py_webdav_stress_test.py:57 | the header built from the server's credentials, "testuser" and "testpassword", exists and the server accepts it |
| `EndToEnd.AuthorizedRunStatistics` | py_webdav_stress_test.py:14-24 | with the header built from the server's credentials and a bare-origin base URL, the server's answers to n requests give n successes, no failure and {"200": n} |

## Left out

- Concurrency is not modelled: `asyncio.Semaphore`, `asyncio.gather`, the aiohttp session and its connection and timeout settings, and all network I/O. Outcomes and their completion order are inputs, and each outcome is folded as one atomic step.
- `random.randint(0, 255)` is not modelled; its values are a parameter, each below 256.
- Clocks and floating point are not modelled: `time.perf_counter`, the durations, the requests-per-second division and its `:.2f` formatting. The timing list holds the elapsed value passed in; only its length is reasoned about.
- `StressReport.PrintDistribution` returns the lines it would print rather than writing them. Its ghost result, the sorted items, lets lemmas speak about them.
- `time.sleep`, stdout writes, the startup and result prints, and argparse are not modelled. The progress and pause schedule is kept as the log of notices the loop would write.
- Exceptions in `fetch_head` other than `ClientError` and `TimeoutError` are not modelled. They would leave `status` unbound in the `finally` block, so only the three outcome kinds exist.
- `WebDavServer.CheckAuthorization`: the UTF-8 decoding of the credentials is replaced by a byte comparison with the ASCII constants. The accept decision is the same. A colon byte never occurs inside a multi-byte UTF-8 sequence, so splitting the bytes equals splitting the text. Only ASCII bytes can equal the constants, and ASCII is valid UTF-8. Python raises `UnicodeDecodeError` on invalid UTF-8; the model has no separate reason for it. It reports `NoColon` when the bytes hold no colon (`Basic /w==` decodes to the single byte 0xFF) and `WrongCredentials` otherwise. Either way the header is rejected, as in the source.
- `Text.Lower`: Unicode lower-casing is replaced by ASCII lower-casing. This is exact for the comparison with "basic": header text is latin-1, and no non-ASCII latin-1 character lower-cases to an ASCII letter.
- `log_request` and its W3C-style log line are not modelled; they use `datetime.now`, stderr and the client address. The field they print is modelled.
- `send_response` also writes `Server` and `Date` headers and calls `log_request`. Those are the library's own and not modelled; only the calls `do_HEAD` makes are recorded.
- Request parsing by `http.server` is not modelled; the header value and the path are inputs. So are `ThreadingTCPServer`, `run_server`, the port and the socket error handling.
- aiohttp's `BasicAuth` is modelled only as the header it produces. Its check that the login has no ':' and its latin-1 encoding appear as error results.
- `EndToEnd.TargetsServed`, `EndToEnd.AuthorizedRunStatistics`: both assume a base URL with no path of its own, such as `http://localhost:8000`, so the server's path is `/evidence/XX`. With a base like `http://host:8000/dav` the server answers 404, and the run still counts every response as successful, ending with `{"404": n}`.
- build.py is not part of this model: it only invokes PyInstaller.
