/** What the stress test sends: the target URL of every request, the Basic
    Authorization header the aiohttp session attaches to each of them, and
    the loop in main that builds one task per request while reporting
    progress. */
module StressClient {

  import opened Wrappers
  import opened Text
  import Base64

  /** One digit of format spec "X": 0-9 then upper-case A-F. */
  function HexDigit(d: nat): (c: char)
    requires d < 16
  {
    if d < 10 then (d + '0' as int) as char else (d - 10 + 'A' as int) as char
  }

  predicate IsUpperHexDigit(c: char)
  {
    '0' <= c <= '9' || 'A' <= c <= 'F'
  }

  /** f"{n:02X}" for a value drawn by random.randint(0, 255). */
  function HexByte(n: nat): (s: string)
    requires n < 256
    ensures |s| == 2 && IsUpperHexDigit(s[0]) && IsUpperHexDigit(s[1])
  {
    [HexDigit(n / 16), HexDigit(n % 16)]
  }

  /** The value of one hexadecimal digit, in either case, as int(s, 16) reads it. */
  function HexValue(c: char): (r: Option<nat>)
    ensures r.Some? ==> r.value < 16
  {
    if '0' <= c <= '9' then Some(c as int - '0' as int)
    else if 'A' <= c <= 'F' then Some(c as int - 'A' as int + 10)
    else if 'a' <= c <= 'f' then Some(c as int - 'a' as int + 10)
    else None
  }

  /** int(s, 16) on a non-empty string of hexadecimal digits; None otherwise. */
  function ParseHex(s: string): (r: Option<nat>)
    decreases |s|
  {
    if |s| == 0 then None
    else match HexValue(s[|s| - 1])
      case None => None
      case Some(d) =>
        if |s| == 1 then Some(d)
        else match ParseHex(s[..|s| - 1])
          case None => None
          case Some(high) => Some(high * 16 + d)
  }

  /** The two-digit suffix reads back as the value it was written from. */
  lemma HexByteRoundTrip(n: nat)
    requires n < 256
    ensures ParseHex(HexByte(n)) == Some(n)
  {
    var s := HexByte(n);
    assert s[..1] == [s[0]];
    assert HexValue(s[0]) == Some(n / 16);
    assert HexValue(s[1]) == Some(n % 16);
  }

  lemma HexByteInjective(n: nat, m: nat)
    requires n < 256 && m < 256
    ensures HexByte(n) == HexByte(m) <==> n == m
  {
    if HexByte(n) == HexByte(m) {
      HexByteRoundTrip(n);
      HexByteRoundTrip(m);
    }
  }

  /** str.rstrip('/') */
  function StripTrailingSlashes(s: string): (r: string)
    ensures StartsWith(s, r)
    ensures |r| == 0 || r[|r| - 1] != '/'
    ensures forall i :: |r| <= i < |s| ==> s[i] == '/'
    decreases |s|
  {
    if |s| > 0 && s[|s| - 1] == '/' then StripTrailingSlashes(s[..|s| - 1]) else s
  }

  /** rstrip('/') is determined by its three properties: a prefix, not
      ending in '/', followed only by slashes. */
  lemma {:induction false} StripUnique(s: string, r: string)
    requires StartsWith(s, r)
    requires |r| == 0 || r[|r| - 1] != '/'
    requires forall i :: |r| <= i < |s| ==> s[i] == '/'
    ensures StripTrailingSlashes(s) == r
  {
    var t := StripTrailingSlashes(s);
    if |t| < |r| {
      assert false;
    } else if |t| > |r| {
      assert false;
    }
    assert t == s[..|t|] && r == s[..|r|];
  }

  lemma StripIdempotent(s: string)
    ensures StripTrailingSlashes(StripTrailingSlashes(s)) == StripTrailingSlashes(s)
  {
    var r := StripTrailingSlashes(s);
    StripUnique(r, r);
  }

  function Slashes(k: nat): (r: string)
    ensures |r| == k && forall i :: 0 <= i < k ==> r[i] == '/'
  {
    seq(k, _ => '/')
  }

  /** Any number of trailing slashes on the base URL gives the same base. */
  lemma StripIgnoresSlashes(base: string, k: nat)
    ensures StripTrailingSlashes(base + Slashes(k)) == StripTrailingSlashes(base)
  {
    var r := StripTrailingSlashes(base);
    var s := base + Slashes(k);
    assert s[..|r|] == base[..|r|];
    forall i | |r| <= i < |s| ensures s[i] == '/' {
      if i < |base| { assert s[i] == base[i]; } else { assert s[i] == Slashes(k)[i - |base|]; }
    }
    StripUnique(s, r);
  }

  /** The request path: "/evidence/" and the two hex digits. */
  function TargetPath(n: nat): (p: string)
    requires n < 256
    ensures |p| == 12 && StartsWith(p, "/evidence/")
    ensures p[10..] == HexByte(n)
  {
    "/evidence/" + HexByte(n)
  }

  /** f"{base.rstrip('/')}/evidence/{random_hex}" */
  function TargetUrl(base: string, n: nat): (url: string)
    requires n < 256
    ensures |url| >= 12 && url[|url| - 2..] == HexByte(n)
    ensures url[..|url| - 12] == StripTrailingSlashes(base)
  {
    StripTrailingSlashes(base) + TargetPath(n)
  }

  /** The URL is the stripped base, never ending in '/', then the path; it
      ends in exactly two upper-case hex digits that read back as n. */
  lemma TargetUrlShape(base: string, n: nat)
    requires n < 256
    ensures var url, b := TargetUrl(base, n), StripTrailingSlashes(base);
      |url| == |b| + 12 && url[..|b|] == b && url[|b|..] == TargetPath(n)
      && (|b| == 0 || b[|b| - 1] != '/')
      && ParseHex(url[|url| - 2..]) == Some(n)
  {
    var url, b := TargetUrl(base, n), StripTrailingSlashes(base);
    assert url[|url| - 2..] == HexByte(n);
    HexByteRoundTrip(n);
  }

  /** Trailing slashes on the configured base never change any target. */
  lemma TargetUrlIgnoresSlashes(base: string, k: nat, n: nat)
    requires n < 256
    ensures TargetUrl(base + Slashes(k), n) == TargetUrl(base, n)
  {
    StripIgnoresSlashes(base, k);
  }

  /** Different draws give different targets on the same base. */
  lemma TargetUrlInjective(base: string, n: nat, m: nat)
    requires n < 256 && m < 256
    ensures TargetUrl(base, n) == TargetUrl(base, m) <==> n == m
  {
    if TargetUrl(base, n) == TargetUrl(base, m) {
      var b := StripTrailingSlashes(base);
      assert TargetUrl(base, n)[|b| + 10..] == HexByte(n);
      assert TargetUrl(base, m)[|b| + 10..] == HexByte(m);
      HexByteInjective(n, m);
    }
  }

  datatype BasicAuthError = ColonInLogin | NotLatin1

  /** aiohttp.BasicAuth(login, password).encode(): the Authorization header
      value; aiohttp refuses a login with ':' and, with its default latin-1
      encoding, characters above U+00FF. */
  function BasicAuthorization(login: string, password: string): (r: Result<string, BasicAuthError>)
    ensures r.Ok? <==> ':' !in login && IsLatin1(login + ":" + password)
    ensures r.Ok? ==> StartsWith(r.value, "Basic ")
  {
    if ':' in login then Err(ColonInLogin)
    else if !IsLatin1(login + ":" + password) then Err(NotLatin1)
    else Ok("Basic " + Base64.Encode(Latin1(login + ":" + password)))
  }

  /** What one iteration of the loop in main writes after appending task i,
      with k = i + 1: a pause notice every 10000 tasks, otherwise a progress
      line every 1000 tasks and after the last one. */
  datatype Progress = ProgressLine(done: nat, total: int) | PauseLine(done: nat, total: int)

  function ProgressAfter(k: nat, total: int): (r: Option<Progress>)
    ensures r.Some? <==> k % 1000 == 0 || k == total
    ensures r.Some? ==> r.value.done == k && r.value.total == total
    ensures r.Some? ==> (r.value.PauseLine? <==> k % 10000 == 0)
  {
    if k % 10000 == 0 then Some(PauseLine(k, total))
    else if k % 1000 == 0 || k == total then Some(ProgressLine(k, total))
    else None
  }

  function ProgressLog(n: nat, total: int): (log: seq<Progress>)
    decreases n
  {
    if n == 0 then []
    else
      ProgressLog(n - 1, total)
      + match ProgressAfter(n, total) case Some(p) => [p] case None => []
  }

  /** The log of the first n iterations holds exactly the notices
      ProgressAfter calls for at k = 1..n, each once and in order of k. */
  lemma {:induction false} ProgressLogContents(n: nat, total: int)
    ensures forall p :: p in ProgressLog(n, total) <==> 1 <= p.done <= n && ProgressAfter(p.done, total) == Some(p)
    ensures forall i, j :: 0 <= i < j < |ProgressLog(n, total)| ==> ProgressLog(n, total)[i].done < ProgressLog(n, total)[j].done
    decreases n
  {
    if n > 0 {
      ProgressLogContents(n - 1, total);
    }
  }

  function Pauses(log: seq<Progress>): (c: nat)
    ensures c <= |log|
  {
    if |log| == 0 then 0
    else Pauses(log[..|log| - 1]) + if log[|log| - 1].PauseLine? then 1 else 0
  }

  lemma {:induction false} PausesAppend(a: seq<Progress>, b: seq<Progress>)
    ensures Pauses(a + b) == Pauses(a) + Pauses(b)
    decreases |b|
  {
    if |b| == 0 {
      assert a + b == a;
    } else {
      assert (a + b)[..|a + b| - 1] == a + b[..|b| - 1];
      PausesAppend(a, b[..|b| - 1]);
    }
  }

  lemma DivStep(n: nat)
    requires n > 0
    ensures n / 10000 == (n - 1) / 10000 + (if n % 10000 == 0 then 1 else 0)
  {
    var q, r := (n - 1) / 10000, (n - 1) % 10000;
    assert n - 1 == q * 10000 + r;
    if r == 9999 {
      assert n == (q + 1) * 10000;
    } else {
      assert n == q * 10000 + (r + 1);
    }
  }

  /** The notices added by iteration k: one pause exactly when k is a
      multiple of 10000. */
  function Notice(k: nat, total: int): (tail: seq<Progress>)
    ensures Pauses(tail) == if k % 10000 == 0 then 1 else 0
  {
    var tail := match ProgressAfter(k, total) case Some(p) => [p] case None => [];
    assert |tail| == 1 ==> tail[..0] == [];
    tail
  }

  /** The run sleeps once per 10000 tasks: floor(n / 10000) pauses in all. */
  lemma {:induction false} PauseCount(n: nat, total: int)
    ensures Pauses(ProgressLog(n, total)) == n / 10000
    decreases n
  {
    if n > 0 {
      PauseCount(n - 1, total);
      assert ProgressLog(n, total) == ProgressLog(n - 1, total) + Notice(n, total);
      PausesAppend(ProgressLog(n - 1, total), Notice(n, total));
      DivStep(n);
    }
  }

  /** The loop in main: one task per index i in 0..request_count-1, each for
      the target built from that iteration's draw; range() of a count below
      one runs no iteration. The draws stand for random.randint(0, 255). */
  method BuildTasks(base: string, requestCount: int, draws: seq<nat>)
    returns (tasks: seq<string>, log: seq<Progress>)
    requires |draws| == if requestCount > 0 then requestCount else 0
    requires forall i :: 0 <= i < |draws| ==> draws[i] < 256
    ensures |tasks| == |draws|
    ensures forall i :: 0 <= i < |tasks| ==> tasks[i] == TargetUrl(base, draws[i])
    ensures log == ProgressLog(|draws|, requestCount)
  {
    tasks, log := [], [];
    var i := 0;
    while i < |draws|
      invariant 0 <= i <= |draws|
      invariant |tasks| == i
      invariant forall j :: 0 <= j < i ==> tasks[j] == TargetUrl(base, draws[j])
      invariant log == ProgressLog(i, requestCount)
    {
      var randomHex := HexByte(draws[i]);
      var targetUrl := StripTrailingSlashes(base) + "/evidence/" + randomHex;
      tasks := tasks + [targetUrl];
      if (i + 1) % 10000 == 0 {
        log := log + [PauseLine(i + 1, requestCount)];
      } else if (i + 1) % 1000 == 0 || i + 1 == requestCount {
        log := log + [ProgressLine(i + 1, requestCount)];
      }
      i := i + 1;
    }
  }
}
