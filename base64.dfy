/** Base64 as the two Python programs use it: base64.b64encode on the client
    side (aiohttp.BasicAuth) and base64.b64decode, non-validating, on the
    server side. The decoder follows CPython's binascii.a2b_base64 with
    strict_mode off: characters outside the RFC 4648 section 4 alphabet are
    skipped, and a pad sequence that completes a quantum ends decoding. */
module Base64 {

  import opened Wrappers
  import opened Text

  type Sextet = x: int | 0 <= x < 64

  /** The RFC 4648 section 4 alphabet, value to character. */
  function Digit(v: Sextet): (c: char)
  {
    if v < 26 then (v + 'A' as int) as char
    else if v < 52 then (v - 26 + 'a' as int) as char
    else if v < 62 then (v - 52 + '0' as int) as char
    else if v == 62 then '+'
    else '/'
  }

  /** The decoding table: character to value, None outside the alphabet. */
  function SextetOf(c: char): (r: Option<Sextet>)
    ensures r.Some? ==> Digit(r.value) == c
    ensures r.Some? ==> c != '=' && (c as int) < 128
  {
    if 'A' <= c <= 'Z' then Some(c as int - 'A' as int)
    else if 'a' <= c <= 'z' then Some(c as int - 'a' as int + 26)
    else if '0' <= c <= '9' then Some(c as int - '0' as int + 52)
    else if c == '+' then Some(62)
    else if c == '/' then Some(63)
    else None
  }

  lemma DigitDecodes(v: Sextet)
    ensures SextetOf(Digit(v)) == Some(v)
  {
  }

  predicate InAlphabet(c: char)
  {
    SextetOf(c).Some?
  }

  datatype DecodeError =
    | NonAsciiInput       // str argument that is not pure ASCII (ValueError)
    | SingleTrailingChar  // one data character beyond a multiple of four
    | IncorrectPadding    // two or three data characters left without padding

  /** The decoder's registers: position in the current quantum, the bits
      carried over from the previous character, the '=' characters seen since
      the last data character, and the bytes written so far. */
  datatype Scanner = Scanner(quad: nat, left: nat, pads: nat, out: seq<Byte>)

  function LeftBound(quad: nat): nat
  {
    if quad == 1 then 64 else if quad == 2 then 16 else if quad == 3 then 4 else 1
  }

  predicate Wf(st: Scanner)
  {
    st.quad < 4 && st.left < LeftBound(st.quad)
  }

  const Start := Scanner(0, 0, 0, [])

  /** One data character: every character after the first of a quantum
      completes one output byte from the carried bits and its own high bits. */
  function Feed(st: Scanner, v: Sextet): (r: Scanner)
    requires Wf(st)
    ensures Wf(r) && r.pads == 0
    ensures r.quad == (st.quad + 1) % 4
    ensures |r.out| == |st.out| + (if st.quad == 0 then 0 else 1)
    ensures StartsWith(r.out, st.out)
  {
    if st.quad == 0 then Scanner(1, v, 0, st.out)
    else if st.quad == 1 then Scanner(2, v % 16, 0, st.out + [st.left * 4 + v / 16])
    else if st.quad == 2 then Scanner(3, v % 4, 0, st.out + [st.left * 16 + v / 4])
    else Scanner(0, 0, 0, st.out + [st.left * 64 + v])
  }

  function Scan(s: string, st: Scanner): (r: Result<seq<Byte>, DecodeError>)
    requires Wf(st)
    ensures r.Err? ==> r.error != NonAsciiInput
    decreases |s|
  {
    if |s| == 0 then
      if st.quad == 0 then Ok(st.out)
      else if st.quad == 1 then Err(SingleTrailingChar)
      else Err(IncorrectPadding)
    else if s[0] == '=' then
      if st.quad >= 2 && st.quad + st.pads + 1 >= 4 then Ok(st.out)
      else if st.quad >= 2 then Scan(s[1..], st.(pads := st.pads + 1))
      else Scan(s[1..], st)
    else match SextetOf(s[0])
      case None => Scan(s[1..], st)
      case Some(v) => Scan(s[1..], Feed(st, v))
  }

  /** base64.b64decode(s) for a str argument, validate=False. */
  function Decode(s: string): (r: Result<seq<Byte>, DecodeError>)
    ensures r == Err(NonAsciiInput) <==> !IsAscii(s)
  {
    if !IsAscii(s) then Err(NonAsciiInput) else Scan(s, Start)
  }

  /** The four characters of a complete three-byte group. */
  function Quad(x: Byte, y: Byte, z: Byte): (r: string)
  {
    [Digit(x / 4), Digit(x % 4 * 16 + y / 16), Digit(y % 16 * 4 + z / 64), Digit(z % 64)]
  }

  /** base64.b64encode(b), as text. */
  function Encode(b: seq<Byte>): (r: string)
    ensures |r| % 4 == 0
    ensures |r| == 0 <==> |b| == 0
  {
    if |b| == 0 then ""
    else if |b| == 1 then [Digit(b[0] / 4), Digit(b[0] % 4 * 16), '=', '=']
    else if |b| == 2 then [Digit(b[0] / 4), Digit(b[0] % 4 * 16 + b[1] / 16), Digit(b[1] % 16 * 4), '=']
    else Quad(b[0], b[1], b[2]) + Encode(b[3..])
  }

  lemma SplitDiv16(a: nat, b: nat)
    requires b < 16
    ensures (a * 16 + b) / 16 == a && (a * 16 + b) % 16 == b
  {
  }

  lemma SplitDiv4(a: nat, b: nat)
    requires b < 4
    ensures (a * 4 + b) / 4 == a && (a * 4 + b) % 4 == b
  {
  }

  /** Decoding one full group written by Encode restores its three bytes and
      leaves the scanner at the start of a quantum. */
  lemma {:induction false} ScanQuad(x: Byte, y: Byte, z: Byte, rest: string, out: seq<Byte>)
    ensures Scan(Quad(x, y, z) + rest, Scanner(0, 0, 0, out))
         == Scan(rest, Scanner(0, 0, 0, out + [x, y, z]))
  {
    var q := Quad(x, y, z);
    var s := q + rest;
    var v0, v1, v2, v3 := x / 4, x % 4 * 16 + y / 16, y % 16 * 4 + z / 64, z % 64;
    DigitDecodes(v0); DigitDecodes(v1); DigitDecodes(v2); DigitDecodes(v3);
    SplitDiv16(x % 4, y / 16);
    SplitDiv4(y % 16, z / 64);
    var st1 := Scanner(1, v0, 0, out);
    var st2 := Scanner(2, y / 16, 0, out + [x]);
    var st3 := Scanner(3, z / 64, 0, out + [x, y]);
    var st4 := Scanner(0, 0, 0, out + [x, y, z]);
    assert Feed(Scanner(0, 0, 0, out), v0) == st1;
    assert Feed(st1, v1) == st2;
    assert Feed(st2, v2) == st3;
    assert Feed(st3, v3) == st4;
    var s1, s2, s3 := s[1..], s[2..], s[3..];
    assert s[0] == Digit(v0) && s1[0] == Digit(v1) && s2[0] == Digit(v2) && s3[0] == Digit(v3);
    assert s1 == s[1..] && s2 == s1[1..] && s3 == s2[1..] && rest == s3[1..];
    calc {
      Scan(s, Scanner(0, 0, 0, out));
      Scan(s1, st1);
      Scan(s2, st2);
      Scan(s3, st3);
      Scan(rest, st4);
    }
  }

  /** A final group of one byte, "xx==": the second '=' completes the
      quantum and ends decoding. */
  lemma ScanSingle(x: Byte, rest: string, out: seq<Byte>)
    ensures Scan(Encode([x]) + rest, Scanner(0, 0, 0, out)) == Ok(out + [x])
  {
    var v0, v1 := x / 4, x % 4 * 16;
    DigitDecodes(v0); DigitDecodes(v1);
    SplitDiv16(x % 4, 0);
    var s := Encode([x]) + rest;
    var st0 := Scanner(0, 0, 0, out);
    var st1 := Scanner(1, v0, 0, out);
    var st2 := Scanner(2, 0, 0, out + [x]);
    assert Feed(st0, v0) == st1;
    assert Feed(st1, v1) == st2;
    assert s[0] == Digit(v0) && s[1..][0] == Digit(v1);
    assert s[1..][1..] == ['=', '='] + rest;
    assert s[1..][1..][1..] == ['='] + rest;
    calc {
      Scan(s, st0);
      Scan(s[1..], st1);
      Scan(s[1..][1..], st2);
      Scan(s[1..][1..][1..], st2.(pads := 1));
      Ok(out + [x]);
    }
  }

  /** A final group of two bytes, "xxx=": one '=' completes the quantum. */
  lemma ScanPair(x: Byte, y: Byte, rest: string, out: seq<Byte>)
    ensures Scan(Encode([x, y]) + rest, Scanner(0, 0, 0, out)) == Ok(out + [x, y])
  {
    var v0, v1, v2 := x / 4, x % 4 * 16 + y / 16, y % 16 * 4;
    DigitDecodes(v0); DigitDecodes(v1); DigitDecodes(v2);
    SplitDiv16(x % 4, y / 16);
    SplitDiv4(y % 16, 0);
    var s := Encode([x, y]) + rest;
    var st0 := Scanner(0, 0, 0, out);
    var st1 := Scanner(1, v0, 0, out);
    var st2 := Scanner(2, y / 16, 0, out + [x]);
    var st3 := Scanner(3, 0, 0, out + [x, y]);
    assert Feed(st0, v0) == st1;
    assert Feed(st1, v1) == st2;
    assert Feed(st2, v2) == st3;
    assert s[0] == Digit(v0) && s[1..][0] == Digit(v1) && s[1..][1..][0] == Digit(v2);
    assert s[1..][1..][1..] == ['='] + rest;
    calc {
      Scan(s, st0);
      Scan(s[1..], st1);
      Scan(s[1..][1..], st2);
      Scan(s[1..][1..][1..], st3);
      Ok(out + [x, y]);
    }
  }

  /** Decoding the encoding of b, followed by anything: the bytes of b come
      back; when b ends in a padded group, whatever follows is ignored. */
  lemma {:induction false} ScanEncoded(b: seq<Byte>, rest: string, out: seq<Byte>)
    ensures |b| % 3 == 0 ==>
      Scan(Encode(b) + rest, Scanner(0, 0, 0, out)) == Scan(rest, Scanner(0, 0, 0, out + b))
    ensures |b| % 3 != 0 ==>
      Scan(Encode(b) + rest, Scanner(0, 0, 0, out)) == Ok(out + b)
    decreases |b|
  {
    if |b| == 0 {
      assert Encode(b) + rest == rest && out + b == out;
    } else if |b| == 1 {
      ScanSingle(b[0], rest, out);
      assert b == [b[0]];
    } else if |b| == 2 {
      ScanPair(b[0], b[1], rest, out);
      assert b == [b[0], b[1]];
    } else {
      GroupSplit(b, rest);
      GroupOutput(b, out);
      ScanQuad(b[0], b[1], b[2], Encode(b[3..]) + rest, out);
      ScanEncoded(b[3..], rest, out + [b[0], b[1], b[2]]);
    }
  }

  /** How a first full group of three bytes sits in the encoding. */
  lemma GroupSplit(b: seq<Byte>, rest: string)
    requires |b| >= 3
    ensures Encode(b) + rest == Quad(b[0], b[1], b[2]) + (Encode(b[3..]) + rest)
  {
    EncodeGroup(b);
    ConcatAssoc(Quad(b[0], b[1], b[2]), Encode(b[3..]), rest);
  }

  lemma EncodeGroup(b: seq<Byte>)
    requires |b| >= 3
    ensures Encode(b) == Quad(b[0], b[1], b[2]) + Encode(b[3..])
  {
  }

  lemma ConcatAssoc(a: string, b: string, c: string)
    ensures (a + b) + c == a + (b + c)
  {
  }

  /** ... and in the decoded output. */
  lemma GroupOutput(b: seq<Byte>, out: seq<Byte>)
    requires |b| >= 3
    ensures (out + [b[0], b[1], b[2]]) + b[3..] == out + b
    ensures |b[3..]| % 3 == |b| % 3
  {
    assert b == [b[0], b[1], b[2]] + b[3..];
    GroupStep(|b[3..]|);
  }

  /** Made only of alphabet characters and '=', all of them ASCII. */
  predicate Shaped(s: string)
  {
    forall i :: 0 <= i < |s| ==> (InAlphabet(s[i]) || s[i] == '=') && (s[i] as int) < 128
  }

  lemma DigitShaped(v: Sextet)
    ensures InAlphabet(Digit(v)) && (Digit(v) as int) < 128
  {
    DigitDecodes(v);
  }

  lemma ShapedConcat(a: string, b: string)
    requires Shaped(a) && Shaped(b)
    ensures Shaped(a + b)
  {
    var s := a + b;
    forall i | 0 <= i < |s| ensures (InAlphabet(s[i]) || s[i] == '=') && (s[i] as int) < 128 {
      if i < |a| { assert s[i] == a[i]; } else { assert s[i] == b[i - |a|]; }
    }
  }

  lemma QuadShaped(x: Byte, y: Byte, z: Byte)
    ensures Shaped(Quad(x, y, z))
  {
    DigitShaped(x / 4);
    DigitShaped(x % 4 * 16 + y / 16);
    DigitShaped(y % 16 * 4 + z / 64);
    DigitShaped(z % 64);
  }

  /** The encoding is made of alphabet characters and '=' only, so it is
      ASCII, and it has four characters per started group of three bytes. */
  lemma {:induction false} EncodeShape(b: seq<Byte>)
    ensures |Encode(b)| == (|b| + 2) / 3 * 4
    ensures forall i :: 0 <= i < |Encode(b)| ==> InAlphabet(Encode(b)[i]) || Encode(b)[i] == '='
    ensures IsAscii(Encode(b))
  {
    EncodeLength(b);
    EncodeShaped(b);
  }

  lemma {:induction false} EncodeLength(b: seq<Byte>)
    ensures |Encode(b)| == (|b| + 2) / 3 * 4
    decreases |b|
  {
    if |b| > 2 {
      var tail := b[3..];
      EncodeLength(tail);
      assert |Encode(b)| == 4 + |Encode(tail)|;
      GroupStep(|tail|);
    }
  }

  lemma GroupStep(n: nat)
    ensures (n + 3 + 2) / 3 * 4 == 4 + (n + 2) / 3 * 4
    ensures (n + 3) % 3 == n % 3
  {
  }

  lemma ShortShaped(b: seq<Byte>)
    requires 1 <= |b| <= 2
    ensures Shaped(Encode(b))
  {
    DigitShaped(b[0] / 4);
    if |b| == 1 {
      DigitShaped(b[0] % 4 * 16);
    } else {
      DigitShaped(b[0] % 4 * 16 + b[1] / 16);
      DigitShaped(b[1] % 16 * 4);
    }
  }

  lemma {:induction false} EncodeShaped(b: seq<Byte>)
    ensures Shaped(Encode(b))
    decreases |b|
  {
    if 1 <= |b| <= 2 {
      ShortShaped(b);
    } else if |b| > 2 {
      EncodeShaped(b[3..]);
      QuadShaped(b[0], b[1], b[2]);
      ShapedConcat(Quad(b[0], b[1], b[2]), Encode(b[3..]));
    }
  }

  /** Round trip: b64decode(b64encode(b)) == b. */
  lemma RoundTrip(b: seq<Byte>)
    ensures Decode(Encode(b)) == Ok(b)
  {
    ScanEncoded(b, "", []);
    EncodeShape(b);
    assert Encode(b) + "" == Encode(b);
    assert [] + b == b;
  }

  /** Python's non-validating mode: padding stops the decoder, so text after
      a padded final group never changes the result. */
  lemma TrailingTextIgnored(b: seq<Byte>, tail: string)
    requires |b| % 3 != 0 && IsAscii(tail)
    ensures Decode(Encode(b) + tail) == Ok(b)
  {
    ScanEncoded(b, tail, []);
    EncodeShape(b);
    var e := Encode(b);
    var s := e + tail;
    forall i | 0 <= i < |s| ensures s[i] as int < 128 {
      if i < |e| { assert s[i] == e[i]; } else { assert s[i] == tail[i - |e|]; }
    }
    assert [] + b == b;
  }

  /** What the decoder actually looks at: data characters and '='. */
  function Relevant(s: string): (r: string)
    ensures |r| <= |s|
    ensures forall i :: 0 <= i < |r| ==> InAlphabet(r[i]) || r[i] == '='
  {
    if |s| == 0 then []
    else if s[0] == '=' || InAlphabet(s[0]) then [s[0]] + Relevant(s[1..])
    else Relevant(s[1..])
  }

  lemma {:induction false} ScanIgnoresIrrelevant(s: string, st: Scanner)
    requires Wf(st)
    ensures Scan(s, st) == Scan(Relevant(s), st)
    decreases |s|
  {
    if |s| == 0 {
    } else if s[0] == '=' || InAlphabet(s[0]) {
      var r := Relevant(s);
      assert r[0] == s[0] && r[1..] == Relevant(s[1..]);
      if s[0] == '=' {
        if st.quad >= 2 && st.quad + st.pads + 1 >= 4 {
        } else if st.quad >= 2 {
          ScanIgnoresIrrelevant(s[1..], st.(pads := st.pads + 1));
        } else {
          ScanIgnoresIrrelevant(s[1..], st);
        }
      } else {
        ScanIgnoresIrrelevant(s[1..], Feed(st, SextetOf(s[0]).value));
      }
    } else {
      ScanIgnoresIrrelevant(s[1..], st);
    }
  }

  /** Characters outside the alphabet (spaces, line breaks, '-', '.', ...)
      are dropped before decoding: inserting them changes nothing. */
  lemma DecodeIgnoresIrrelevant(s: string)
    requires IsAscii(s)
    ensures Decode(s) == Decode(Relevant(s))
  {
    ScanIgnoresIrrelevant(s, Start);
    ScanIgnoresIrrelevant(Relevant(s), Start);
    RelevantIdempotent(s);
  }

  lemma {:induction false} RelevantIdempotent(s: string)
    ensures Relevant(Relevant(s)) == Relevant(s)
    decreases |s|
  {
    if |s| > 0 {
      RelevantIdempotent(s[1..]);
      if s[0] == '=' || InAlphabet(s[0]) {
        var r := Relevant(s);
        assert r[0] == s[0] && r[1..] == Relevant(s[1..]);
      }
    }
  }
}
