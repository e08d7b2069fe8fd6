/** The status-code distribution at the end of the stress test report:
    sorted(stats['status_code_counts'].items()), one line per label. */
module StressReport {

  import opened Wrappers
  import opened Text
  import StressStats

  /** Python's str < : code point by code point, a proper prefix first. */
  predicate Below(a: string, b: string)
    decreases |a|
  {
    |b| > 0 && (|a| == 0 || a[0] < b[0] || (a[0] == b[0] && Below(a[1..], b[1..])))
  }

  lemma {:induction false} BelowIrreflexive(a: string)
    ensures !Below(a, a)
    decreases |a|
  {
    if |a| > 0 {
      BelowIrreflexive(a[1..]);
    }
  }

  lemma {:induction false} BelowTransitive(a: string, b: string, c: string)
    requires Below(a, b) && Below(b, c)
    ensures Below(a, c)
    decreases |a|
  {
    if |a| > 0 && a[0] == b[0] && b[0] == c[0] {
      BelowTransitive(a[1..], b[1..], c[1..]);
    }
  }

  lemma {:induction false} BelowTotal(a: string, b: string)
    requires a != b
    ensures Below(a, b) || Below(b, a)
    decreases |a|
  {
    if |a| > 0 && |b| > 0 && a[0] == b[0] {
      assert a == [a[0]] + a[1..] && b == [b[0]] + b[1..];
      BelowTotal(a[1..], b[1..]);
    }
  }

  predicate IsLeast(k: string, keys: set<string>)
  {
    k in keys && forall j :: j in keys && j != k ==> Below(k, j)
  }

  /** Every non-empty finite set of labels has a least element. */
  lemma {:induction false} LeastExists(keys: set<string>)
    requires keys != {}
    ensures exists k :: IsLeast(k, keys)
    decreases |keys|
  {
    var x :| x in keys;
    var others := keys - {x};
    if others == {} {
      assert keys == {x};
      assert IsLeast(x, keys);
    } else {
      LeastExists(others);
      var m :| IsLeast(m, others);
      if Below(x, m) {
        forall j | j in keys && j != x ensures Below(x, j) {
          if j != m {
            assert j in others;
            BelowTransitive(x, m, j);
          }
        }
        assert IsLeast(x, keys);
      } else {
        BelowTotal(x, m);
        forall j | j in keys && j != m ensures Below(m, j) {
          if j != x {
            assert j in others;
          }
        }
        assert IsLeast(m, keys);
      }
    }
  }

  /** Labels strictly ascending, hence each at most once. */
  predicate Ascending(items: seq<(string, nat)>)
  {
    forall i, j :: 0 <= i < j < |items| ==> Below(items[i].0, items[j].0)
  }

  /** The items of the counter in ascending label order: every pair of the
      counter exactly once, and nothing else. Labels are distinct, so
      Python's tuple comparison never reaches the counts. */
  method SortedItems(counts: map<string, nat>) returns (items: seq<(string, nat)>)
    ensures Ascending(items)
    ensures |items| == |counts|
    ensures forall i :: 0 <= i < |items| ==> items[i].0 in counts && counts[items[i].0] == items[i].1
    ensures forall k :: k in counts ==> (k, counts[k]) in items
  {
    items := [];
    var rest := counts;
    while rest != map[]
      invariant rest.Keys <= counts.Keys
      invariant forall k :: k in rest ==> rest[k] == counts[k]
      invariant |items| + |rest| == |counts|
      invariant Ascending(items)
      invariant forall i :: 0 <= i < |items| ==> items[i].0 in counts && items[i].0 !in rest && counts[items[i].0] == items[i].1
      invariant forall i, k :: 0 <= i < |items| && k in rest ==> Below(items[i].0, k)
      invariant forall k :: k in counts && k !in rest ==> (k, counts[k]) in items
      decreases |rest|
    {
      LeastExists(rest.Keys);
      var k :| k in rest.Keys && IsLeast(k, rest.Keys);
      assert (rest - {k}).Keys == rest.Keys - {k};
      items := items + [(k, rest[k])];
      rest := rest - {k};
    }
  }

  /** f"{status}: {count} requests" */
  function ReportLine(item: (string, nat)): (line: string)
    ensures |line| > |item.0| && line[..|item.0|] == item.0 && line[|item.0|] == ':'
  {
    item.0 + ": " + StressStats.Decimal(item.1) + " requests"
  }

  /** Reads the part after the label back: " ", the count in decimal and
      " requests". */
  function ParseCount(after: string): Option<nat>
  {
    if |after| >= 11 && after[0] == ' ' && after[|after| - 9..] == " requests"
       && forall i :: 1 <= i < |after| - 9 ==> '0' <= after[i] <= '9'
    then Some(StressStats.ParseDecimal(after[1..|after| - 9]))
    else None
  }

  /** Reads a report line back: the label runs up to the first ':'. */
  function ParseReportLine(line: string): Option<(string, nat)>
  {
    match SplitOnce(line, ':')
    case None => None
    case Some((key, after)) =>
      match ParseCount(after)
      case None => None
      case Some(count) => Some((key, count))
  }

  lemma CountRoundTrip(n: nat)
    ensures ParseCount(" " + StressStats.Decimal(n) + " requests") == Some(n)
  {
    var d := StressStats.Decimal(n);
    var after := " " + d + " requests";
    assert after[1..|after| - 9] == d;
    assert after[|after| - 9..] == " requests";
    StressStats.DecimalRoundTrip(n);
  }

  /** A line reads back as its own pair whenever the label holds no ':'. */
  lemma ReportLineRoundTrip(item: (string, nat))
    requires ':' !in item.0
    ensures ParseReportLine(ReportLine(item)) == Some(item)
  {
    var after := " " + StressStats.Decimal(item.1) + " requests";
    assert ReportLine(item) == item.0 + [':'] + after;
    SplitOnceJoin(item.0, ':', after);
    CountRoundTrip(item.1);
  }

  lemma DistinctLines(x: (string, nat), y: (string, nat))
    requires ':' !in x.0 && ':' !in y.0 && x.0 != y.0
    ensures ReportLine(x) != ReportLine(y)
  {
    ReportLineRoundTrip(x);
    ReportLineRoundTrip(y);
  }

  /** No label of the counter holds ':'. */
  lemma LabelHasNoColon(o: StressStats.Outcome)
    ensures ':' !in StressStats.Label(o)
  {
    if o.Response? {
      var s := StressStats.Decimal(o.status);
      assert forall i :: 0 <= i < |s| ==> s[i] != ':';
    }
  }

  lemma CounterKeysHaveNoColon(xs: seq<StressStats.Outcome>)
    ensures forall k :: k in StressStats.Tally(xs) ==> ':' !in k
  {
    forall k | k in StressStats.Tally(xs) ensures ':' !in k {
      StressStats.TallyCounts(xs, k);
      StressStats.OccurrencesOfLabelled(xs, k);
      var o :| o in xs && StressStats.Label(o) == k;
      LabelHasNoColon(o);
    }
  }

  /** The for loop over sorted(counter.items()): line i is the report line
      of the i-th item in ascending label order. The sorted items are
      returned as a ghost result so that lemmas can speak about them. */
  method PrintDistribution(counts: map<string, nat>)
    returns (lines: seq<string>, ghost items: seq<(string, nat)>)
    ensures Ascending(items)
    ensures |items| == |counts|
    ensures forall i :: 0 <= i < |items| ==> items[i].0 in counts && counts[items[i].0] == items[i].1
    ensures forall k :: k in counts ==> (k, counts[k]) in items
    ensures |lines| == |items|
    ensures forall i :: 0 <= i < |items| ==> lines[i] == ReportLine(items[i])
    ensures |lines| == |counts|
    ensures forall k :: k in counts ==> ReportLine((k, counts[k])) in lines
  {
    var sorted := SortedItems(counts);
    items := sorted;
    lines := [];
    for i := 0 to |sorted|
      invariant |lines| == i
      invariant forall j :: 0 <= j < i ==> lines[j] == ReportLine(sorted[j])
    {
      lines := lines + [ReportLine(sorted[i])];
    }
    forall k | k in counts ensures ReportLine((k, counts[k])) in lines {
      var j :| 0 <= j < |sorted| && sorted[j] == (k, counts[k]);
      assert lines[j] == ReportLine((k, counts[k]));
    }
  }

  /** Every printed line reads back to its own (label, count) pair, so the
      lines carry the counter's pairs in ascending label order. */
  lemma LinesReadBack(items: seq<(string, nat)>, lines: seq<string>)
    requires |items| == |lines|
    requires forall i :: 0 <= i < |items| ==> ':' !in items[i].0
    requires forall j :: 0 <= j < |items| ==> lines[j] == ReportLine(items[j])
    ensures forall i :: 0 <= i < |lines| ==> ParseReportLine(lines[i]) == Some(items[i])
  {
    forall i | 0 <= i < |lines| ensures ParseReportLine(lines[i]) == Some(items[i]) {
      ReportLineRoundTrip(items[i]);
    }
  }

  /** No line is printed twice. */
  lemma LinesDistinct(items: seq<(string, nat)>, lines: seq<string>)
    requires Ascending(items) && |items| == |lines|
    requires forall i :: 0 <= i < |items| ==> ':' !in items[i].0
    requires forall j :: 0 <= j < |items| ==> lines[j] == ReportLine(items[j])
    ensures forall i, j :: 0 <= i < j < |lines| ==> lines[i] != lines[j]
  {
    forall i, j | 0 <= i < j < |lines| ensures lines[i] != lines[j] {
      BelowIrreflexive(items[i].0);
      DistinctLines(items[i], items[j]);
    }
  }
}
