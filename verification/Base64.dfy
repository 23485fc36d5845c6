/** Base64 as in section 4 of RFC 4648, with Go's decoder: line breaks are skipped, the padded form
    demands its padding, the raw form has none, and unused trailing bits are ignored. */
module Base64 {
  import opened Strings

  type Sextet = d: nat | d < 64

  function CharOf(d: Sextet): char {
    if d < 26 then ('A' as int + d) as char
    else if d < 52 then ('a' as int + d - 26) as char
    else if d < 62 then ('0' as int + d - 52) as char
    else if d == 62 then '+' else '/'
  }

  function ValueOf(c: char): Option<Sextet> {
    if 'A' <= c <= 'Z' then Some(c as int - 'A' as int)
    else if 'a' <= c <= 'z' then Some(c as int - 'a' as int + 26)
    else if '0' <= c <= '9' then Some(c as int - '0' as int + 52)
    else if c == '+' then Some(62)
    else if c == '/' then Some(63)
    else None
  }

  lemma ValueOfChar(d: Sextet)
    ensures ValueOf(CharOf(d)) == Some(d)
  {}

  /** A character has a value exactly when it is the digit of that value. */
  lemma ValueIff(c: char, d: Sextet)
    ensures ValueOf(c) == Some(d) <==> c == CharOf(d)
  {}

  // the four digits of three bytes

  function D0(a: Byte): Sextet { a as int / 4 }
  function D1(a: Byte, b: Byte): Sextet { (a as int % 4) * 16 + b as int / 16 }
  function D2(b: Byte, c: Byte): Sextet { (b as int % 16) * 4 + c as int / 64 }
  function D3(c: Byte): Sextet { c as int % 64 }

  function B0(d0: Sextet, d1: Sextet): Byte { (d0 * 4 + d1 / 16) as Byte }
  function B1(d1: Sextet, d2: Sextet): Byte { ((d1 % 16) * 16 + d2 / 4) as Byte }
  function B2(d2: Sextet, d3: Sextet): Byte { ((d2 % 4) * 64 + d3) as Byte }

  /** EncodeToString of StdEncoding (padded) or RawStdEncoding. */
  function Encode(bs: Bytes, padded: bool): string {
    if |bs| == 0 then ""
    else if |bs| == 1 then
      [CharOf(D0(bs[0])), CharOf(D1(bs[0], 0))] + (if padded then "==" else "")
    else if |bs| == 2 then
      [CharOf(D0(bs[0])), CharOf(D1(bs[0], bs[1])), CharOf(D2(bs[1], 0))] + (if padded then "=" else "")
    else
      [CharOf(D0(bs[0])), CharOf(D1(bs[0], bs[1])), CharOf(D2(bs[1], bs[2])), CharOf(D3(bs[2]))] +
        Encode(bs[3..], padded)
  }

  /** One or two bytes from the first digits of a last, incomplete quantum. */
  function LastQuantum(digits: string): Option<Bytes>
    requires 2 <= |digits| <= 3
  {
    var d0, d1 := ValueOf(digits[0]), ValueOf(digits[1]);
    if d0.None? || d1.None? then None
    else if |digits| == 2 then Some([B0(d0.value, d1.value)])
    else
      var d2 := ValueOf(digits[2]);
      if d2.None? then None else Some([B0(d0.value, d1.value), B1(d1.value, d2.value)])
  }

  function DecodeDigits(s: string, padded: bool): Option<Bytes>
    decreases |s|
  {
    if s == "" then Some([])
    else if |s| >= 4 && forall i :: 0 <= i < 4 ==> ValueOf(s[i]).Some? then
      var d0, d1, d2, d3 := ValueOf(s[0]).value, ValueOf(s[1]).value, ValueOf(s[2]).value, ValueOf(s[3]).value;
      match DecodeDigits(s[4..], padded)
      case None => None
      case Some(rest) => Some([B0(d0, d1), B1(d1, d2), B2(d2, d3)] + rest)
    else if padded then
      if |s| != 4 || s[3] != '=' then None
      else LastQuantum(if s[2] == '=' then s[..2] else s[..3])
    else if 2 <= |s| <= 3 then LastQuantum(s)
    else None
  }

  function WithoutLineBreaks(s: string): string {
    if s == "" then ""
    else (if s[0] == '\r' || s[0] == '\n' then "" else [s[0]]) + WithoutLineBreaks(s[1..])
  }

  /** DecodeString. */
  function Decode(s: string, padded: bool): Option<Bytes> {
    DecodeDigits(WithoutLineBreaks(s), padded)
  }

  /** Base64 text holds letters, digits, '+', '/' and '=' only, and only the empty string encodes to
      the empty string. */
  lemma {:induction false} EncodedAlphabet(bs: Bytes, padded: bool)
    ensures forall c :: c in Encode(bs, padded) ==> ValueOf(c).Some? || c == '='
    ensures Encode(bs, padded) == "" <==> bs == []
  {
    if |bs| > 2 {
      EncodedAlphabet(bs[3..], padded);
    }
  }

  lemma {:induction false} NoLineBreaks(s: string)
    requires forall c :: c in s ==> c != '\r' && c != '\n'
    ensures WithoutLineBreaks(s) == s
  {
    if s != "" {
      assert s[0] in s && forall c :: c in s[1..] ==> c in s;
      NoLineBreaks(s[1..]);
    }
  }

  /** Three bytes survive their four digits. */
  lemma QuantumRoundTrip(a: Byte, b: Byte, c: Byte)
    ensures B0(D0(a), D1(a, b)) == a && B1(D1(a, b), D2(b, c)) == b && B2(D2(b, c), D3(c)) == c
  {}

  lemma DecodesTwo(d0: Sextet, d1: Sextet, padded: bool)
    ensures DecodeDigits([CharOf(d0), CharOf(d1)] + (if padded then "==" else ""), padded) == Some([B0(d0, d1)])
  {
    var s, digits := [CharOf(d0), CharOf(d1)] + (if padded then "==" else ""), [CharOf(d0), CharOf(d1)];
    ValueOfChar(d0);
    ValueOfChar(d1);
    if padded {
      assert s[3] == '=' && s[2] == '=' && s[..2] == digits && ValueOf(s[3]).None?;
    } else {
      assert s == digits;
    }
  }

  lemma DecodesThree(d0: Sextet, d1: Sextet, d2: Sextet, padded: bool)
    ensures DecodeDigits([CharOf(d0), CharOf(d1), CharOf(d2)] + (if padded then "=" else ""), padded) ==
            Some([B0(d0, d1), B1(d1, d2)])
  {
    var digits := [CharOf(d0), CharOf(d1), CharOf(d2)];
    var s := digits + (if padded then "=" else "");
    ValueOfChar(d0);
    ValueOfChar(d1);
    ValueOfChar(d2);
    if padded {
      assert s[3] == '=' && s[2] == digits[2] != '=' && s[..3] == digits && ValueOf(s[3]).None?;
    } else {
      assert s == digits;
    }
  }

  lemma DecodesFour(d0: Sextet, d1: Sextet, d2: Sextet, d3: Sextet, rest: string, padded: bool)
    requires DecodeDigits(rest, padded).Some?
    ensures DecodeDigits([CharOf(d0), CharOf(d1), CharOf(d2), CharOf(d3)] + rest, padded) ==
            Some([B0(d0, d1), B1(d1, d2), B2(d2, d3)] + DecodeDigits(rest, padded).value)
  {
    var s := [CharOf(d0), CharOf(d1), CharOf(d2), CharOf(d3)] + rest;
    ValueOfChar(d0);
    ValueOfChar(d1);
    ValueOfChar(d2);
    ValueOfChar(d3);
    assert s[0] == CharOf(d0) && s[1] == CharOf(d1) && s[2] == CharOf(d2) && s[3] == CharOf(d3);
    assert s[4..] == rest;
  }

  predicate Survives(bs: Bytes, padded: bool) { DecodeDigits(Encode(bs, padded), padded) == Some(bs) }

  lemma OneByte(a: Byte, padded: bool)
    ensures Survives([a], padded)
  {
    var d0, d1 := D0(a), D1(a, 0);
    assert Encode([a], padded) == [CharOf(d0), CharOf(d1)] + (if padded then "==" else "");
    assert B0(d0, d1) == a by { QuantumRoundTrip(a, 0, 0); }
    DecodesTwo(d0, d1, padded);
  }

  lemma TwoBytes(a: Byte, b: Byte, padded: bool)
    ensures Survives([a, b], padded)
  {
    var d0, d1, d2 := D0(a), D1(a, b), D2(b, 0);
    assert Encode([a, b], padded) == [CharOf(d0), CharOf(d1), CharOf(d2)] + (if padded then "=" else "");
    assert B0(d0, d1) == a && B1(d1, d2) == b by { QuantumRoundTrip(a, b, 0); }
    DecodesThree(d0, d1, d2, padded);
  }

  lemma ThreeBytes(a: Byte, b: Byte, c: Byte, more: Bytes, padded: bool)
    requires Survives(more, padded)
    ensures Survives([a, b, c] + more, padded)
  {
    var d0, d1, d2, d3 := D0(a), D1(a, b), D2(b, c), D3(c);
    assert ([a, b, c] + more)[3..] == more;
    assert Encode([a, b, c] + more, padded) == [CharOf(d0), CharOf(d1), CharOf(d2), CharOf(d3)] + Encode(more, padded);
    assert B0(d0, d1) == a && B1(d1, d2) == b && B2(d2, d3) == c by { QuantumRoundTrip(a, b, c); }
    DecodesFour(d0, d1, d2, d3, Encode(more, padded), padded);
  }

  lemma {:induction false} DigitsRoundTrip(bs: Bytes, padded: bool)
    ensures Survives(bs, padded)
  {
    if |bs| == 1 {
      assert [bs[0]] == bs;
      OneByte(bs[0], padded);
    } else if |bs| == 2 {
      assert [bs[0], bs[1]] == bs;
      TwoBytes(bs[0], bs[1], padded);
    } else if |bs| > 2 {
      assert [bs[0], bs[1], bs[2]] + bs[3..] == bs;
      DigitsRoundTrip(bs[3..], padded);
      ThreeBytes(bs[0], bs[1], bs[2], bs[3..], padded);
    }
  }

  lemma Unbroken(s: string, padded: bool)
    requires forall c :: c in s ==> ValueOf(c).Some? || c == '='
    ensures Decode(s, padded) == DecodeDigits(s, padded)
  {
    NoLineBreaks(s);
  }

  /** Decoding undoes encoding, in both forms. */
  lemma RoundTrip(bs: Bytes, padded: bool)
    ensures Decode(Encode(bs, padded), padded) == Some(bs)
  {
    EncodedAlphabet(bs, padded);
    Unbroken(Encode(bs, padded), padded);
    DigitsRoundTrip(bs, padded);
  }

  // ---------------------------------------------------------------- what is accepted

  predicate AllDigits(t: string) { forall i :: 0 <= i < |t| ==> ValueOf(t[i]).Some? }

  /** The padding that n digits call for. */
  function PadFor(n: nat, padded: bool): string {
    if !padded || n % 4 == 0 then "" else if n % 4 == 2 then "==" else "="
  }

  /** n base64 digits, a number that whole bytes can give, and exactly their padding. */
  predicate CompleteWith(t: string, padded: bool, n: nat) {
    n <= |t| && n % 4 != 1 && AllDigits(t[..n]) && t[n..] == PadFor(n, padded)
  }

  ghost predicate Complete(t: string, padded: bool) { exists n: nat :: CompleteWith(t, padded, n) }

  /** Padding does not start where a digit stands. */
  lemma DigitsFirst(s: string, padded: bool, n: nat)
    requires CompleteWith(s, padded, n) && |s| >= 4 && AllDigits(s[..4])
    ensures n >= 4
  {
    assert forall i :: 0 <= i < 4 ==> s[..4][i] == s[i];
    assert n < |s| ==> s[n..][0] == s[n];
    assert ValueOf('=').None?;
  }

  lemma FourMore(s: string, padded: bool)
    requires |s| >= 4 && AllDigits(s[..4])
    ensures Complete(s, padded) <==> Complete(s[4..], padded)
  {
    if n: nat :| CompleteWith(s, padded, n) {
      DigitsFirst(s, padded, n);
      assert s[4..][n-4..] == s[n..] && s[4..][..n-4] == s[..n][4..];
      assert CompleteWith(s[4..], padded, n - 4);
    }
    if n: nat :| CompleteWith(s[4..], padded, n) {
      assert s[..n+4] == s[..4] + s[4..][..n] && s[n+4..] == s[4..][n..];
      assert CompleteWith(s, padded, n + 4);
    }
  }

  lemma ShortCompleteIff(s: string, padded: bool)
    requires s != "" && !(|s| >= 4 && forall i :: 0 <= i < 4 ==> ValueOf(s[i]).Some?)
    ensures DecodeDigits(s, padded).Some? <==> Complete(s, padded)
  {
    assert ValueOf('=').None?;
    if n: nat :| CompleteWith(s, padded, n) {
      assert forall i :: 0 <= i < n ==> s[..n][i] == s[i];
      assert |s| == n + |PadFor(n, padded)|;
      assert n < 4;
      if padded { assert s[n..][|s|-n-1] == s[|s|-1] && s[n..][0] == s[n]; }
    }
    if DecodeDigits(s, padded).Some? {
      var n := if !padded then |s| else if s[2] == '=' then 2 else 3;
      assert forall i :: 0 <= i < n ==> s[..n][i] == s[i];
      if padded {
        assert s[n..] == if n == 2 then [s[2], s[3]] else [s[3]];
      } else {
        assert s[n..] == "";
      }
      assert CompleteWith(s, padded, n);
    }
  }

  lemma {:induction false} DigitsCompleteIff(s: string, padded: bool)
    ensures DecodeDigits(s, padded).Some? <==> Complete(s, padded)
    decreases |s|
  {
    if s == "" {
      assert CompleteWith(s, padded, 0);
    } else if |s| >= 4 && forall i :: 0 <= i < 4 ==> ValueOf(s[i]).Some? {
      assert AllDigits(s[..4]);
      FourMore(s, padded);
      DigitsCompleteIff(s[4..], padded);
    } else {
      ShortCompleteIff(s, padded);
    }
  }

  /** Decoding accepts exactly a whole number of bytes' digits with exactly their padding, line breaks aside. */
  lemma DecodesIff(s: string, padded: bool)
    ensures Decode(s, padded).Some? <==> Complete(WithoutLineBreaks(s), padded)
  {
    DigitsCompleteIff(WithoutLineBreaks(s), padded);
  }

  lemma {:induction false} BreaksConcat(a: string, b: string)
    ensures WithoutLineBreaks(a + b) == WithoutLineBreaks(a) + WithoutLineBreaks(b)
  {
    if a == "" {
      assert a + b == b;
    } else {
      assert (a + b)[1..] == a[1..] + b;
      BreaksConcat(a[1..], b);
    }
  }

  /** A line break anywhere in the text makes no difference. */
  lemma LineBreaksIgnored(a: string, c: char, b: string, padded: bool)
    requires c == '\r' || c == '\n'
    ensures Decode(a + [c] + b, padded) == Decode(a + b, padded)
  {
    BreaksConcat(a + [c], b);
    BreaksConcat(a, [c]);
    BreaksConcat(a, b);
    assert [c][1..] == "" && WithoutLineBreaks([c]) == "";
    assert WithoutLineBreaks(a) + "" == WithoutLineBreaks(a);
  }

  /** The test vectors of section 10 of RFC 4648, and the last two digits of the alphabet. */
  lemma Vectors()
    ensures Encode([0x66], true) == "Zg==" && Encode([0x66, 0x6F], true) == "Zm8="
    ensures Encode([0x66, 0x6F, 0x6F], true) == "Zm9v" && Encode([0xFB, 0xFF, 0xBF], true) == "+/+/"
    ensures Encode([0x66], false) == "Zg" && Encode([0x66, 0x6F], false) == "Zm8"
  {
    var foo: Bytes, end: Bytes := [0x66, 0x6F, 0x6F], [0xFB, 0xFF, 0xBF];
    assert foo[3..] == [] && end[3..] == [];
    assert Encode(foo, true) == "Zm9v" + "" && Encode(end, true) == "+/+/" + "";
  }

  lemma {:induction false} RawDigits(bs: Bytes)
    ensures AllDigits(Encode(bs, false))
    ensures |Encode(bs, false)| == 4 * (|bs| / 3) + (if |bs| % 3 == 0 then 0 else |bs| % 3 + 1)
    ensures |bs| % 3 == 0 ==> Encode(bs, true) == Encode(bs, false)
  {
    if |bs| > 2 {
      RawDigits(bs[3..]);
      assert |bs[3..]| / 3 == |bs| / 3 - 1 && |bs[3..]| % 3 == |bs| % 3;
    }
  }

  lemma DigitsOnly(t: string, n: nat)
    requires AllDigits(t) && CompleteWith(t, true, n)
    ensures |t| % 4 == 0
  {
    assert n < |t| ==> t[n..][0] == t[n] && ValueOf(t[n]).Some? && ValueOf('=').None?;
  }

  lemma PaddingIsMissed(t: string)
    requires AllDigits(t) && |t| % 4 != 0
    ensures Decode(t, true).None?
  {
    NoLineBreaks(t);
    DecodesIff(t, true);
    if n: nat :| CompleteWith(t, true, n) { DigitsOnly(t, n); }
  }

  /** Raw text read as padded gives the same bytes or is refused. */
  lemma RawAsPadded(bs: Bytes)
    ensures Decode(Encode(bs, false), true).None? || Decode(Encode(bs, false), true) == Some(bs)
  {
    RawDigits(bs);
    if |bs| % 3 == 0 {
      RoundTrip(bs, true);
    } else {
      PaddingIsMissed(Encode(bs, false));
    }
  }
}
