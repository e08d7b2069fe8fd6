/** Character and string helpers with the meaning Python's str methods have
    on the inputs this model feeds them. */
module Text {

  import opened Wrappers

  /** A byte, as produced by str.encode and consumed by bytes comparisons. */
  type Byte = x: int | 0 <= x < 256

  predicate IsAscii(s: string)
  {
    forall i :: 0 <= i < |s| ==> s[i] as int < 128
  }

  predicate IsLatin1(s: string)
  {
    forall i :: 0 <= i < |s| ==> s[i] as int < 256
  }

  /** ASCII lower-casing of one character; every other character is kept. */
  function LowerChar(c: char): (r: char)
    ensures 'A' <= c <= 'Z' ==> r as int == c as int + 32
    ensures !('A' <= c <= 'Z') ==> r == c
  {
    if 'A' <= c <= 'Z' then (c as int + 32) as char else c
  }

  function Lower(s: string): (r: string)
    ensures |r| == |s|
    ensures forall i :: 0 <= i < |s| ==> r[i] == LowerChar(s[i])
  {
    seq(|s|, i requires 0 <= i < |s| => LowerChar(s[i]))
  }

  /** str.encode("latin-1"): one byte per code point below 256. */
  function Latin1(s: string): (r: seq<Byte>)
    requires IsLatin1(s)
    ensures |r| == |s|
    ensures forall i :: 0 <= i < |s| ==> r[i] == s[i] as int
  {
    seq(|s|, i requires 0 <= i < |s| => s[i] as int as Byte)
  }

  lemma Latin1Injective(s: string, t: string)
    requires IsLatin1(s) && IsLatin1(t)
    requires Latin1(s) == Latin1(t)
    ensures s == t
  {
    assert |s| == |t|;
    forall i | 0 <= i < |s| ensures s[i] == t[i] {
      assert Latin1(s)[i] == Latin1(t)[i];
    }
  }

  lemma Latin1Append(s: string, t: string)
    requires IsLatin1(s) && IsLatin1(t)
    ensures IsLatin1(s + t) && Latin1(s + t) == Latin1(s) + Latin1(t)
  {
    assert IsLatin1(s + t) by {
      forall i | 0 <= i < |s + t| ensures (s + t)[i] as int < 256 {
        if i < |s| { assert (s + t)[i] == s[i]; } else { assert (s + t)[i] == t[i - |s|]; }
      }
    }
  }

  /** str.startswith(prefix) */
  predicate StartsWith<T(==)>(s: seq<T>, prefix: seq<T>)
  {
    |prefix| <= |s| && s[..|prefix|] == prefix
  }

  /** Index of the first occurrence of x in s, if any (str.find / bytes.find). */
  function IndexOf<T(==)>(s: seq<T>, x: T): (r: Option<nat>)
    ensures r.None? <==> x !in s
    ensures r.Some? ==> r.value < |s| && s[r.value] == x && x !in s[..r.value]
  {
    if |s| == 0 then None
    else if s[0] == x then Some(0)
    else match IndexOf(s[1..], x)
      case None => None
      case Some(j) => assert s[1..][..j] == s[1..j + 1]; Some(j + 1)
  }

  /** s.split(sep, 1) unpacked into two parts: None when sep does not occur,
      which is the ValueError Python raises on unpacking a one-element list. */
  function SplitOnce<T(==)>(s: seq<T>, sep: T): (r: Option<(seq<T>, seq<T>)>)
    ensures r.None? <==> sep !in s
    ensures r.Some? ==> sep !in r.value.0 && s == r.value.0 + [sep] + r.value.1
  {
    match IndexOf(s, sep)
    case None => None
    case Some(i) =>
      assert s == s[..i] + [sep] + s[i + 1..];
      Some((s[..i], s[i + 1..]))
  }

  /** Splitting happens at the first separator only: whatever follows may
      contain the separator again. */
  lemma {:induction false} SplitOnceJoin<T>(a: seq<T>, sep: T, b: seq<T>)
    requires sep !in a
    ensures SplitOnce(a + [sep] + b, sep) == Some((a, b))
  {
    var s := a + [sep] + b;
    IndexOfFirst(a, sep, b);
    assert s[..|a|] == a;
    assert s[|a| + 1..] == b;
  }

  lemma {:induction false} IndexOfFirst<T>(a: seq<T>, sep: T, b: seq<T>)
    requires sep !in a
    ensures IndexOf(a + [sep] + b, sep) == Some(|a|)
  {
    var s := a + [sep] + b;
    if |a| == 0 {
      assert s[0] == sep;
    } else {
      assert s[0] == a[0] && a[0] != sep;
      assert s[1..] == a[1..] + [sep] + b;
      IndexOfFirst(a[1..], sep, b);
    }
  }
}
