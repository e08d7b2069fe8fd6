/** The statistics record of the stress test and the update fetch_head
    applies to it once per finished request. */
module StressStats {

  /** How one HEAD request ended: a response with its status code (whatever
      the code), an aiohttp.ClientError, or an asyncio.TimeoutError that is
      not also an aiohttp.ClientError (aiohttp's connect timeouts are both,
      and the ClientError clause comes first). */
  datatype Outcome = Response(status: nat) | ClientError | Timeout

  function DecimalDigit(d: nat): (c: char)
    requires d < 10
    ensures '0' <= c <= '9'
  {
    (d + '0' as int) as char
  }

  /** str(n) for a non-negative integer. */
  function Decimal(n: nat): (s: string)
    ensures |s| > 0 && forall i :: 0 <= i < |s| ==> '0' <= s[i] <= '9'
  {
    if n < 10 then [DecimalDigit(n)] else Decimal(n / 10) + [DecimalDigit(n % 10)]
  }

  /** int(s) on a string of decimal digits. */
  function ParseDecimal(s: string): nat
    requires forall i :: 0 <= i < |s| ==> '0' <= s[i] <= '9'
  {
    if |s| == 0 then 0 else ParseDecimal(s[..|s| - 1]) * 10 + (s[|s| - 1] as int - '0' as int)
  }

  lemma {:induction false} DecimalRoundTrip(n: nat)
    ensures ParseDecimal(Decimal(n)) == n
    decreases n
  {
    if n >= 10 {
      var s := Decimal(n);
      assert s[..|s| - 1] == Decimal(n / 10);
      DecimalRoundTrip(n / 10);
    }
  }

  /** The key fetch_head counts an outcome under. */
  function Label(o: Outcome): (key: string)
    ensures |key| > 0
    ensures o.Response? <==> '0' <= key[0] <= '9'
  {
    match o
    case Response(code) => Decimal(code)
    case ClientError => "NetworkError"
    case Timeout => "Timeout"
  }

  /** Distinct outcomes never share a key: the two sentinels start with a
      letter, and str() of a status code is all digits and reads back. */
  lemma LabelInjective(a: Outcome, b: Outcome)
    ensures Label(a) == Label(b) <==> a == b
  {
    if a.Response? {
      SentinelsAreNotCodes(a.status);
    }
    if b.Response? {
      SentinelsAreNotCodes(b.status);
    }
    if a.Response? && b.Response? && Label(a) == Label(b) {
      DecimalRoundTrip(a.status);
      DecimalRoundTrip(b.status);
    }
  }

  lemma SentinelsAreNotCodes(code: nat)
    ensures Decimal(code) != "NetworkError" && Decimal(code) != "Timeout"
  {
    var s := Decimal(code);
    assert '0' <= s[0] <= '9';
  }

  /** Counter()[key] += 1 */
  function Bump(m: map<string, nat>, key: string): (r: map<string, nat>)
    ensures r.Keys == m.Keys + {key}
    ensures r[key] == (if key in m then m[key] else 0) + 1
    ensures forall k :: k in m && k != key ==> r[k] == m[k]
  {
    m[key := (if key in m then m[key] else 0) + 1]
  }

  /** The record after folding the outcomes xs, in that order, into a zeroed
      record: the two counters and the key counter. */
  function Successes(xs: seq<Outcome>): (n: nat)
    ensures n <= |xs|
  {
    if |xs| == 0 then 0
    else Successes(xs[..|xs| - 1]) + if xs[|xs| - 1].Response? then 1 else 0
  }

  function Failures(xs: seq<Outcome>): (n: nat)
    ensures n <= |xs|
  {
    if |xs| == 0 then 0
    else Failures(xs[..|xs| - 1]) + if xs[|xs| - 1].Response? then 0 else 1
  }

  function Tally(xs: seq<Outcome>): (counts: map<string, nat>)
    ensures counts == map[] <==> |xs| == 0
    ensures |xs| > 0 ==> Label(xs[|xs| - 1]) in counts
  {
    if |xs| == 0 then map[] else Bump(Tally(xs[..|xs| - 1]), Label(xs[|xs| - 1]))
  }

  /** Every outcome lands in exactly one of the two counters. */
  lemma {:induction false} CountersPartition(xs: seq<Outcome>)
    ensures Successes(xs) + Failures(xs) == |xs|
    decreases |xs|
  {
    if |xs| > 0 {
      CountersPartition(xs[..|xs| - 1]);
    }
  }

  /** How many of the outcomes carry the given key. */
  function Occurrences(xs: seq<Outcome>, key: string): (c: nat)
    ensures c <= |xs|
  {
    if |xs| == 0 then 0
    else Occurrences(xs[..|xs| - 1], key) + if Label(xs[|xs| - 1]) == key then 1 else 0
  }

  /** The key counter holds, for each key, how many outcomes carry it,
      and no key that none carries. */
  lemma {:induction false} TallyCounts(xs: seq<Outcome>, key: string)
    ensures key in Tally(xs) <==> Occurrences(xs, key) > 0
    ensures key in Tally(xs) ==> Tally(xs)[key] == Occurrences(xs, key)
    decreases |xs|
  {
    if |xs| > 0 {
      TallyCounts(xs[..|xs| - 1], key);
    }
  }

  /** Because labels are injective, the count under an outcome's key is
      that outcome's multiplicity. */
  lemma {:induction false} OccurrencesOfLabel(xs: seq<Outcome>, o: Outcome)
    ensures Occurrences(xs, Label(o)) == multiset(xs)[o]
    decreases |xs|
  {
    if |xs| > 0 {
      var init, last := xs[..|xs| - 1], xs[|xs| - 1];
      assert xs == init + [last];
      OccurrencesOfLabel(init, o);
      LabelInjective(last, o);
    }
  }

  lemma {:induction false} OccurrencesOfLabelled(xs: seq<Outcome>, key: string)
    requires Occurrences(xs, key) > 0
    ensures exists o :: o in xs && Label(o) == key
    decreases |xs|
  {
    var init, last := xs[..|xs| - 1], xs[|xs| - 1];
    if Label(last) != key {
      OccurrencesOfLabelled(init, key);
      var o :| o in init && Label(o) == key;
      assert o in xs;
    }
  }

  lemma {:induction false} FailuresAsMultiplicities(xs: seq<Outcome>)
    ensures Failures(xs) == multiset(xs)[ClientError] + multiset(xs)[Timeout]
    decreases |xs|
  {
    if |xs| > 0 {
      var init, last := xs[..|xs| - 1], xs[|xs| - 1];
      assert xs == init + [last];
      FailuresAsMultiplicities(init);
    }
  }

  /** The completion order of the gathered tasks does not matter: the final
      counters and key counter depend only on the multiset of outcomes. */
  lemma OrderIndependent(xs: seq<Outcome>, ys: seq<Outcome>)
    requires multiset(xs) == multiset(ys)
    ensures Successes(xs) == Successes(ys) && Failures(xs) == Failures(ys)
    ensures Tally(xs) == Tally(ys)
  {
    FailuresAsMultiplicities(xs);
    FailuresAsMultiplicities(ys);
    CountersPartition(xs);
    CountersPartition(ys);
    assert |xs| == |multiset(xs)| == |ys|;
    forall key ensures key in Tally(xs) <==> key in Tally(ys)
      ensures key in Tally(xs) ==> Tally(xs)[key] == Tally(ys)[key]
    {
      SameOccurrences(xs, ys, key);
      TallyCounts(xs, key);
      TallyCounts(ys, key);
    }
  }

  lemma SameOccurrences(xs: seq<Outcome>, ys: seq<Outcome>, key: string)
    requires multiset(xs) == multiset(ys)
    ensures Occurrences(xs, key) == Occurrences(ys, key)
  {
    if Occurrences(xs, key) > 0 {
      OccurrencesOfLabelled(xs, key);
      var o :| o in xs && Label(o) == key;
      OccurrencesOfLabel(xs, o);
      OccurrencesOfLabel(ys, o);
    } else if Occurrences(ys, key) > 0 {
      OccurrencesOfLabelled(ys, key);
      var o :| o in ys && Label(o) == key;
      OccurrencesOfLabel(xs, o);
      OccurrencesOfLabel(ys, o);
    }
  }

  /** Some key of a non-empty counter; which one does not matter to SumValues. */
  ghost function Pick(m: map<string, nat>): (k: string)
    requires |m| > 0
    ensures k in m
  {
    var k :| k in m; k
  }

  /** The sum of a counter's values (sum(Counter.values())). */
  ghost function SumValues(m: map<string, nat>): nat
    decreases |m|
  {
    if |m| == 0 then 0 else m[Pick(m)] + SumValues(m - {Pick(m)})
  }

  lemma RemoveSize(m: map<string, nat>, k: string)
    requires k in m
    ensures |m - {k}| == |m| - 1
  {
    assert (m - {k}).Keys == m.Keys - {k};
  }

  /** The sum does not depend on the key taken first. */
  lemma {:induction false} SumValuesRemove(m: map<string, nat>, k: string)
    requires k in m
    ensures SumValues(m) == m[k] + SumValues(m - {k})
    decreases |m|
  {
    RemoveSize(m, k);
    var j := Pick(m);
    if j != k {
      var mj, mk := m - {j}, m - {k};
      RemoveSize(m, j);
      assert k in mj && j in mk;
      SumValuesRemove(mj, k);
      SumValuesRemove(mk, j);
      assert mj - {k} == mk - {j};
    }
  }

  lemma BumpSum(m: map<string, nat>, key: string)
    ensures SumValues(Bump(m, key)) == SumValues(m) + 1
  {
    var r := Bump(m, key);
    SumValuesRemove(r, key);
    if key in m {
      SumValuesRemove(m, key);
      assert r - {key} == m - {key};
    } else {
      assert r - {key} == m;
    }
  }

  /** The record's invariant: the key counts add up to the number of
      folded outcomes, which is successful + failed. */
  lemma {:induction false} TallyTotal(xs: seq<Outcome>)
    ensures SumValues(Tally(xs)) == Successes(xs) + Failures(xs) == |xs|
    decreases |xs|
  {
    CountersPartition(xs);
    if |xs| > 0 {
      TallyTotal(xs[..|xs| - 1]);
      BumpSum(Tally(xs[..|xs| - 1]), Label(xs[|xs| - 1]));
    } else {
      assert Tally(xs) == map[];
    }
  }

  /** Any response counts as successful, a 404 or a 500 included: after any
      earlier run, it adds one success, no failure, and one to its code's
      label. */
  lemma ErrorStatusCountsAsSuccess(xs: seq<Outcome>, code: nat)
    ensures Successes(xs + [Response(code)]) == Successes(xs) + 1
    ensures Failures(xs + [Response(code)]) == Failures(xs)
    ensures Tally(xs + [Response(code)]) == Bump(Tally(xs), Decimal(code))
  {
    assert (xs + [Response(code)])[..|xs|] == xs;
  }

  /** n identical outcomes give one key with count n and put all n in one
      counter. */
  lemma UniformRun(o: Outcome, n: nat)
    ensures var xs := seq(n, _ => o);
      Tally(xs) == (if n == 0 then map[] else map[Label(o) := n])
      && Successes(xs) == (if o.Response? then n else 0)
      && Failures(xs) == (if o.Response? then 0 else n)
  {
    UniformCounters(o, n);
    UniformTally(o, n);
  }

  lemma {:induction false} UniformCounters(o: Outcome, n: nat)
    ensures Successes(seq(n, _ => o)) == (if o.Response? then n else 0)
    ensures Failures(seq(n, _ => o)) == (if o.Response? then 0 else n)
    decreases n
  {
    if n > 0 {
      var xs := seq(n, _ => o);
      assert xs[..n - 1] == seq(n - 1, _ => o);
      UniformCounters(o, n - 1);
    }
  }

  lemma {:induction false} UniformTally(o: Outcome, n: nat)
    ensures Tally(seq(n, _ => o)) == (if n == 0 then map[] else map[Label(o) := n])
    decreases n
  {
    if n > 0 {
      var xs := seq(n, _ => o);
      assert xs[..n - 1] == seq(n - 1, _ => o);
      assert xs[n - 1] == o;
      UniformTally(o, n - 1);
    }
  }

  /** The statistics dictionary of main, updated in place by every task. */
  class RunStats {
    const totalRequests: int
    var successfulRequests: nat
    var failedRequests: nat
    var statusCodeCounts: map<string, nat>
    /** Elapsed times as perf_counter differences; only their number matters here. */
    var totalTimePerRequest: seq<real>
    /** The outcomes folded so far, in completion order. */
    ghost var outcomes: seq<Outcome>

    ghost predicate Valid()
      reads this
    {
      && successfulRequests == Successes(outcomes)
      && failedRequests == Failures(outcomes)
      && statusCodeCounts == Tally(outcomes)
      && |totalTimePerRequest| == |outcomes|
    }

    constructor (requestCount: int)
      ensures Valid() && outcomes == []
      ensures totalRequests == requestCount
      ensures successfulRequests == 0 && failedRequests == 0
      ensures statusCodeCounts == map[] && totalTimePerRequest == []
    {
      totalRequests := requestCount;
      successfulRequests, failedRequests := 0, 0;
      statusCodeCounts := map[];
      totalTimePerRequest := [];
      outcomes := [];
    }

    /** The try/except/finally of fetch_head once the request has ended. */
    method Record(outcome: Outcome, elapsed: real)
      requires Valid()
      modifies this
      ensures Valid() && outcomes == old(outcomes) + [outcome]
      ensures successfulRequests == old(successfulRequests) + (if outcome.Response? then 1 else 0)
      ensures failedRequests == old(failedRequests) + (if outcome.Response? then 0 else 1)
      ensures statusCodeCounts == Bump(old(statusCodeCounts), Label(outcome))
      ensures totalTimePerRequest == old(totalTimePerRequest) + [elapsed]
    {
      var status: string;
      match outcome {
        case Response(code) =>
          status := Decimal(code);
          successfulRequests := successfulRequests + 1;
        case ClientError =>
          status := "NetworkError";
          failedRequests := failedRequests + 1;
        case Timeout =>
          status := "Timeout";
          failedRequests := failedRequests + 1;
      }
      statusCodeCounts := Bump(statusCodeCounts, status);
      totalTimePerRequest := totalTimePerRequest + [elapsed];
      outcomes := outcomes + [outcome];
      assert outcomes[..|outcomes| - 1] == old(outcomes);
    }

    /** asyncio.gather over the tasks: each finished task folds its outcome,
      in whatever order they finish. */
    method RecordAll(finished: seq<Outcome>, elapsed: seq<real>)
      requires Valid() && |elapsed| == |finished|
      modifies this
      ensures Valid() && outcomes == old(outcomes) + finished
      ensures totalTimePerRequest == old(totalTimePerRequest) + elapsed
    {
      ghost var before, timesBefore := outcomes, totalTimePerRequest;
      var i := 0;
      while i < |finished|
        invariant 0 <= i <= |finished|
        invariant Valid()
        invariant outcomes == before + finished[..i]
        invariant totalTimePerRequest == timesBefore + elapsed[..i]
      {
        Record(finished[i], elapsed[i]);
        PrefixStep(before, finished, i);
        PrefixStep(timesBefore, elapsed, i);
        i := i + 1;
      }
      assert finished[..i] == finished;
      assert elapsed[..i] == elapsed;
    }
  }

  lemma PrefixStep<T>(a: seq<T>, s: seq<T>, i: nat)
    requires i < |s|
    ensures a + s[..i + 1] == (a + s[..i]) + [s[i]]
  {
    assert s[..i + 1] == s[..i] + [s[i]];
  }

  /** Whenever the record is consistent with the outcomes folded into it,
      its label counts add up to successful + failed, which is the length of
      the timing list. */
  lemma StatsInvariant(stats: RunStats)
    requires stats.Valid()
    ensures SumValues(stats.statusCodeCounts)
         == stats.successfulRequests + stats.failedRequests
         == |stats.totalTimePerRequest|
  {
    TallyTotal(stats.outcomes);
  }
}
