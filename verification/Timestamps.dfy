/** Timestamps as internal/store/store.go stores them: RFC3339Nano text in UTC, compared as text. */
module Timestamps {
  import opened Strings

  /** A UTC civil time; order of times is order of the fields from left to right. */
  datatype Stamp = Stamp(year: nat, month: nat, day: nat, hour: nat, minute: nat, second: nat, nanos: nat)

  predicate InRange(t: Stamp) {
    t.year < 10_000 && t.month < 100 && t.day < 100 && t.hour < 100 && t.minute < 100 && t.second < 100 &&
    t.nanos < 1_000_000_000
  }

  predicate SameSecond(a: Stamp, b: Stamp) { a.(nanos := 0) == b.(nanos := 0) }

  predicate EarlierSecond(a: Stamp, b: Stamp) {
    a.year < b.year || (a.year == b.year &&
    (a.month < b.month || (a.month == b.month &&
    (a.day < b.day || (a.day == b.day &&
    (a.hour < b.hour || (a.hour == b.hour &&
    (a.minute < b.minute || (a.minute == b.minute && a.second < b.second)))))))))
  }

  predicate Before(a: Stamp, b: Stamp) {
    EarlierSecond(a, b) || (SameSecond(a, b) && a.nanos < b.nanos)
  }

  function Pow10(n: nat): nat { if n == 0 then 1 else 10 * Pow10(n - 1) }

  /** Zero-padded decimal. */
  function Pad(n: nat, width: nat): (s: string)
    ensures |s| == width
    ensures forall i :: 0 <= i < width ==> IsDigit(s[i])
    decreases width
  {
    if width == 0 then "" else Pad(n / 10, width - 1) + [Digit(n % 10)]
  }

  predicate AllZero(s: string) { forall i :: 0 <= i < |s| ==> s[i] == '0' }

  /** The string without its trailing zeros. */
  function TrimZeros(s: string): (r: string)
    ensures |r| <= |s| && r == s[..|r|]
  {
    if AllZero(s) then "" else [s[0]] + TrimZeros(s[1..])
  }

  /** The fraction digits that are printed; none for a whole second. */
  function Fraction(nanos: nat): string { TrimZeros(Pad(nanos, 9)) }

  function Tail(nanos: nat): string {
    if Fraction(nanos) == "" then "Z" else "." + Fraction(nanos) + "Z"
  }

  /** t.UTC().Format(time.RFC3339Nano). */
  function Text(t: Stamp): string {
    Pad(t.year, 4) + ("-" + (Pad(t.month, 2) + ("-" + (Pad(t.day, 2) + ("T" + (Pad(t.hour, 2) + (":" +
      (Pad(t.minute, 2) + (":" + (Pad(t.second, 2) + Tail(t.nanos)))))))))))
  }

  // ---------------------------------------------------------------- padded numbers

  /** Padded numbers compare as text like numbers. */
  lemma {:induction false} PadOrder(a: nat, b: nat, width: nat)
    requires a < Pow10(width) && b < Pow10(width)
    ensures Less(Pad(a, width), Pad(b, width)) <==> a < b
    ensures Pad(a, width) == Pad(b, width) <==> a == b
    decreases width
  {
    if width > 0 {
      var x, y := Pad(a / 10, width - 1), Pad(b / 10, width - 1);
      PadOrder(a / 10, b / 10, width - 1);
      if x == y {
        LessSamePrefix(x, [Digit(a % 10)], [Digit(b % 10)]);
        assert a % 10 == b % 10 <==> Digit(a % 10) == Digit(b % 10);
        assert Pad(a, width)[width-1] == Digit(a % 10) && Pad(b, width)[width-1] == Digit(b % 10);
      } else {
        LessByFixedWidth(x, y, [Digit(a % 10)], [Digit(b % 10)]);
        assert Pad(a, width)[..width-1] == x && Pad(b, width)[..width-1] == y;
      }
    }
  }

  /** A padded field decides before whatever follows it. */
  lemma Field(a: nat, b: nat, width: nat, x: string, y: string)
    requires a < Pow10(width) && b < Pow10(width)
    ensures Less(Pad(a, width) + x, Pad(b, width) + y) <==> a < b || (a == b && Less(x, y))
  {
    PadOrder(a, b, width);
    if a == b {
      LessSamePrefix(Pad(a, width), x, y);
    } else {
      LessByFixedWidth(Pad(a, width), Pad(b, width), x, y);
    }
  }

  /** A padded field reads as its number. */
  lemma {:induction false} PadIs(n: nat, width: nat)
    requires n < Pow10(width)
    ensures Value(Pad(n, width)) == n
    decreases width
  {
    if width > 0 {
      PadIs(n / 10, width - 1);
      var s := Pad(n, width);
      assert s[..width-1] == Pad(n / 10, width - 1) && s[width-1] == Digit(n % 10);
    }
  }

  // ---------------------------------------------------------------- trimmed fractions

  lemma {:induction false} TrimIs(s: string)
    ensures AllZero(s[|TrimZeros(s)|..])
    ensures TrimZeros(s) == "" <==> AllZero(s)
    ensures TrimZeros(s) != "" ==> TrimZeros(s)[|TrimZeros(s)|-1] != '0'
  {
    if !AllZero(s) {
      TrimIs(s[1..]);
      assert s[|TrimZeros(s)|..] == s[1..][|TrimZeros(s[1..])|..];
      if AllZero(s[1..]) { assert s == [s[0]] + s[1..]; }
    }
  }

  lemma {:induction false} PadZero(n: nat, width: nat)
    requires n < Pow10(width)
    ensures AllZero(Pad(n, width)) <==> n == 0
    decreases width
  {
    if width > 0 {
      PadZero(n / 10, width - 1);
      var s := Pad(n, width);
      assert s == Pad(n / 10, width - 1) + [Digit(n % 10)];
      if n == 0 {
        assert AllZero(Pad(0, width - 1));
      } else if n / 10 == 0 {
        assert s[width-1] == Digit(n % 10) != '0';
      } else {
        var i :| 0 <= i < width - 1 && Pad(n / 10, width - 1)[i] != '0';
        assert s[i] != '0';
      }
    }
  }

  /** A whole second ends in "Z"; otherwise "." and the nine digits of the fraction come before it,
      without their trailing zeros. */
  lemma TailIs(nanos: nat)
    requires nanos < Pow10(9)
    ensures nanos == 0 ==> Tail(nanos) == "Z"
    ensures nanos > 0 ==> var f := Fraction(nanos);
              && Tail(nanos) == "." + f + "Z" && f != "" && f[|f|-1] != '0'
              && |f| <= 9 && f == Pad(nanos, 9)[..|f|] && AllZero(Pad(nanos, 9)[|f|..])
  {
    TrimIs(Pad(nanos, 9));
    PadZero(nanos, 9);
  }

  /** The fields of a stored time: four digits of year, two of all others. */
  lemma StoredFields()
    ensures Pad(2024, 4) == "2024" && Pad(1, 2) == "01" && Pad(2, 2) == "02"
    ensures Pad(13, 2) == "13" && Pad(4, 2) == "04" && Pad(59, 2) == "59"
  {
    assert Pad(2, 1) == "2" && Pad(20, 2) == "20" && Pad(202, 3) == "202";
    assert Pad(0, 1) == "0" && Pad(1, 1) == "1" && Pad(5, 1) == "5";
  }

  lemma JoinFields(y: string, mo: string, d: string, h: string, mi: string, s: string, tail: string)
    ensures y + ("-" + (mo + ("-" + (d + ("T" + (h + (":" + (mi + (":" + (s + tail)))))))))) ==
            (y + "-" + mo + "-" + d + "T" + h + ":" + mi + ":" + s) + tail
  {}

  /** A time as it is stored. */
  lemma StoredText(nanos: nat)
    ensures Text(Stamp(2024, 1, 2, 13, 4, 59, nanos)) == "2024-01-02T13:04:59" + Tail(nanos)
  {
    StoredFields();
    JoinFields(Pad(2024, 4), Pad(1, 2), Pad(2, 2), Pad(13, 2), Pad(4, 2), Pad(59, 2), Tail(nanos));
    JoinedText();
  }

  lemma JoinedText()
    ensures "2024" + "-" + "01" + "-" + "02" + "T" + "13" + ":" + "04" + ":" + "59" == "2024-01-02T13:04:59"
  {}

  lemma {:induction false} ZerosLeast(p: string, q: string)
    requires |p| == |q| && AllZero(p) && forall i :: 0 <= i < |q| ==> IsDigit(q[i])
    ensures Less(p, q) <==> !AllZero(q)
    ensures !Less(q, p)
  {
    if p != "" {
      ZerosLeast(p[1..], q[1..]);
      if q[0] == '0' {
        assert AllZero(q) <==> AllZero(q[1..]) by {
          assert forall i :: 0 < i < |q| ==> q[i] == q[1..][i-1];
        }
      }
    }
  }

  /** Trimming trailing zeros keeps the order of fractions. */
  lemma {:induction false} TrimOrder(p: string, q: string)
    requires |p| == |q|
    requires forall i :: 0 <= i < |p| ==> IsDigit(p[i]) && IsDigit(q[i])
    ensures Less(TrimZeros(p), TrimZeros(q)) <==> Less(p, q)
    ensures TrimZeros(p) == TrimZeros(q) <==> p == q
  {
    if AllZero(p) {
      ZerosLeast(p, q);
      if AllZero(q) { assert p == q; }
    } else if AllZero(q) {
      ZerosLeast(q, p);
    } else if p[0] == q[0] {
      TrimOrder(p[1..], q[1..]);
      assert p == [p[0]] + p[1..] && q == [q[0]] + q[1..];
      assert TrimZeros(p)[1..] == TrimZeros(p[1..]) && TrimZeros(q)[1..] == TrimZeros(q[1..]);
    }
  }

  predicate ProperPrefix(x: string, y: string) { |x| < |y| && y[..|x|] == x }

  /** A closing Z, greater than every digit, reverses exactly the proper prefixes. */
  lemma {:induction false} ClosingZ(x: string, y: string)
    requires forall c :: c in x || c in y ==> IsDigit(c)
    ensures Less(x + "Z", y + "Z") <==>
        if ProperPrefix(x, y) then false else if ProperPrefix(y, x) then true else Less(x, y)
  {
    if x != "" && y != "" {
      assert (x + "Z")[1..] == x[1..] + "Z" && (y + "Z")[1..] == y[1..] + "Z";
      assert ProperPrefix(x, y) <==> x[0] == y[0] && ProperPrefix(x[1..], y[1..]) by {
        if |x| < |y| { assert y[..|x|] == [y[0]] + y[1..][..|x|-1] && x == [x[0]] + x[1..]; }
      }
      assert ProperPrefix(y, x) <==> x[0] == y[0] && ProperPrefix(y[1..], x[1..]) by {
        if |y| < |x| { assert x[..|y|] == [x[0]] + x[1..][..|y|-1] && y == [y[0]] + y[1..]; }
      }
      ClosingZ(x[1..], y[1..]);
    } else if x == "" && y != "" {
      assert y[..0] == "" && y[0] in y;
      assert (y + "Z")[0] == y[0];
    } else if y == "" && x != "" {
      assert x[..0] == "" && x[0] in x;
      assert (x + "Z")[0] == x[0];
    }
  }

  /** One printed fraction is a proper beginning of the other. */
  predicate Nested(a: nat, b: nat) {
    ProperPrefix(Fraction(a), Fraction(b)) || ProperPrefix(Fraction(b), Fraction(a))
  }

  lemma {:induction false} PrefixLess(x: string, y: string)
    requires ProperPrefix(x, y)
    ensures Less(x, y) && !Less(y, x)
  {
    if x != "" {
      assert y[..|x|][0] == x[0] && y[..|x|][1..] == x[1..] && y[1..][..|x|-1] == y[..|x|][1..];
      PrefixLess(x[1..], y[1..]);
    }
  }

  lemma TailOrder(a: nat, b: nat)
    requires a < Pow10(9) && b < Pow10(9)
    ensures Less(Tail(a), Tail(b)) <==> if Nested(a, b) then b < a else a < b
  {
    var x, y := Fraction(a), Fraction(b);
    PadOrder(a, b, 9);
    TrimOrder(Pad(a, 9), Pad(b, 9));
    assert Less(x, y) <==> a < b;
    if ProperPrefix(x, y) { PrefixLess(x, y); }
    if ProperPrefix(y, x) { PrefixLess(y, x); }
    ClosingZ(x, y);
    if x != "" && y != "" {
      assert "." + x + "Z" == "." + (x + "Z") && "." + y + "Z" == "." + (y + "Z");
      LessSamePrefix(".", x + "Z", y + "Z");
    } else if x == "" && y != "" {
      assert y[..0] == "";
    } else if y == "" && x != "" {
      assert x[..0] == "";
    }
  }

  // ---------------------------------------------------------------- the stored text

  lemma TextOrder(a: Stamp, b: Stamp)
    requires InRange(a) && InRange(b)
    ensures Less(Text(a), Text(b)) <==> EarlierSecond(a, b) || (SameSecond(a, b) && Less(Tail(a.nanos), Tail(b.nanos)))
  {
    assert Pow10(2) == 100 && Pow10(4) == 10_000;
    var s, s' := Pad(a.second, 2) + Tail(a.nanos), Pad(b.second, 2) + Tail(b.nanos);
    var m, m' := Pad(a.minute, 2) + (":" + s), Pad(b.minute, 2) + (":" + s');
    var h, h' := Pad(a.hour, 2) + (":" + m), Pad(b.hour, 2) + (":" + m');
    var d, d' := Pad(a.day, 2) + ("T" + h), Pad(b.day, 2) + ("T" + h');
    var o, o' := Pad(a.month, 2) + ("-" + d), Pad(b.month, 2) + ("-" + d');
    Field(a.second, b.second, 2, Tail(a.nanos), Tail(b.nanos));
    Field(a.minute, b.minute, 2, ":" + s, ":" + s');
    LessSamePrefix(":", s, s');
    Field(a.hour, b.hour, 2, ":" + m, ":" + m');
    LessSamePrefix(":", m, m');
    Field(a.day, b.day, 2, "T" + h, "T" + h');
    LessSamePrefix("T", h, h');
    Field(a.month, b.month, 2, "-" + d, "-" + d');
    LessSamePrefix("-", d, d');
    Field(a.year, b.year, 4, "-" + o, "-" + o');
    LessSamePrefix("-", o, o');
  }

  /** The stored texts compare like the times exactly when the times fall in different seconds, or
      neither printed fraction begins the other (a whole second's empty fraction begins all). */
  lemma TextOrderIff(a: Stamp, b: Stamp)
    requires InRange(a) && InRange(b)
    ensures (Less(Text(a), Text(b)) <==> Before(a, b)) <==> !SameSecond(a, b) || !Nested(a.nanos, b.nanos)
  {
    assert Pow10(9) == 1_000_000_000;
    TextOrder(a, b);
    TailOrder(a.nanos, b.nanos);
    PadOrder(a.nanos, b.nanos, 9);
  }

  /** Half past a second sorts before the second itself. */
  lemma HalfBeforeWhole(t: Stamp)
    requires InRange(t) && t.nanos == 0
    ensures var half := t.(nanos := 500_000_000);
            Before(t, half) && Less(Text(half), Text(t)) && !Less(Text(t), Text(half))
  {
    var half := t.(nanos := 500_000_000);
    assert Pow10(9) == 1_000_000_000;
    PadOrder(0, 500_000_000, 9);
    ZeroPads(9);
    TrimOrder(Pad(0, 9), Pad(500_000_000, 9));
    assert Fraction(0) == "" && Fraction(500_000_000) != "";
    assert ProperPrefix(Fraction(0), Fraction(500_000_000)) by { assert Fraction(500_000_000)[..0] == ""; }
    TextOrder(t, half);
    TextOrder(half, t);
    TailOrder(0, 500_000_000);
    TailOrder(500_000_000, 0);
  }

  lemma {:induction false} ZeroPads(width: nat)
    ensures AllZero(Pad(0, width))
  {
    if width > 0 {
      ZeroPads(width - 1);
    }
  }
}
