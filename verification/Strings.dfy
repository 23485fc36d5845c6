/** Byte-string helpers shared by the models: order, ASCII case, splitting and decimal digits. */
module Strings {

  datatype Option<+T> = None | Some(value: T)

  newtype Byte = b: int | 0 <= b < 256
  type Bytes = seq<Byte>

  // ---------------------------------------------------------------- order

  /** Go's `<` on strings: first differing byte decides, a proper prefix is smaller. */
  predicate Less(a: string, b: string) {
    if |b| == 0 then false
    else if |a| == 0 then true
    else a[0] < b[0] || (a[0] == b[0] && Less(a[1..], b[1..]))
  }

  lemma LessIrreflexive(a: string)
    ensures !Less(a, a)
  {}

  lemma {:induction false} LessTransitive(a: string, b: string, c: string)
    requires Less(a, b) && Less(b, c)
    ensures Less(a, c)
  {
    if |a| > 0 && a[0] == b[0] == c[0] {
      LessTransitive(a[1..], b[1..], c[1..]);
    }
  }

  lemma {:induction false} LessTotal(a: string, b: string)
    ensures a == b || Less(a, b) || Less(b, a)
  {
    if |a| > 0 && |b| > 0 && a[0] == b[0] {
      LessTotal(a[1..], b[1..]);
      assert a == [a[0]] + a[1..] && b == [b[0]] + b[1..];
    }
  }

  /** A shared prefix does not matter to the order. */
  lemma {:induction false} LessSamePrefix(p: string, a: string, b: string)
    ensures Less(p + a, p + b) == Less(a, b)
  {
    if p == "" {
      assert p + a == a && p + b == b;
    } else {
      assert (p + a)[1..] == p[1..] + a && (p + b)[1..] == p[1..] + b;
      LessSamePrefix(p[1..], a, b);
    }
  }

  /** Two different words of one length decide the order whatever follows them. */
  lemma {:induction false} LessByFixedWidth(a: string, b: string, x: string, y: string)
    requires |a| == |b| && a != b
    ensures Less(a + x, b + y) == Less(a, b)
  {
    if a[0] == b[0] {
      assert a == [a[0]] + a[1..] && b == [b[0]] + b[1..];
      assert (a + x)[1..] == a[1..] + x && (b + y)[1..] == b[1..] + y;
      LessByFixedWidth(a[1..], b[1..], x, y);
    }
  }

  // ---------------------------------------------------------------- ASCII case

  function LowerChar(c: char): char {
    if 'A' <= c <= 'Z' then (c as int + 32) as char else c
  }

  /** strings.ToLower, and SQLite's NOCASE fold, on ASCII text. */
  function Lower(s: string): (r: string)
    ensures |r| == |s|
    ensures forall i :: 0 <= i < |s| ==> r[i] == LowerChar(s[i])
  {
    seq(|s|, i requires 0 <= i < |s| => LowerChar(s[i]))
  }

  /** Capital ASCII letters become the small letters at the same place in the alphabet; nothing else changes. */
  lemma LowerCharIs(c: char)
    ensures 'A' <= c <= 'Z' ==> LowerChar(c) as int - 'a' as int == c as int - 'A' as int
    ensures !('A' <= c <= 'Z') ==> LowerChar(c) == c
  {}

  lemma LowerIdempotent(s: string)
    ensures Lower(Lower(s)) == Lower(s)
  {}

  lemma LowerConcat(a: string, b: string)
    ensures Lower(a + b) == Lower(a) + Lower(b)
  {}

  /** unicode.IsSpace. */
  predicate IsSpace(c: char) {
    c in "\t\n\r " || c as int in {0x0B, 0x0C, 0x85, 0xA0, 0x1680, 0x2028, 0x2029, 0x202F, 0x205F, 0x3000} ||
    0x2000 <= c as int <= 0x200A
  }

  /** Of the ASCII characters, white space is the blank and the controls 9 to 13. */
  lemma AsciiSpaces(c: char)
    requires c as int < 0x80
    ensures IsSpace(c) <==> c == ' ' || 9 <= c as int <= 13
  {}

  // ---------------------------------------------------------------- Split and Join

  /** strings.Split for a one-byte separator. */
  function Split(s: string, sep: char): (parts: seq<string>)
    ensures |parts| >= 1
  {
    if s == "" then [""]
    else
      var rest := Split(s[1..], sep);
      if s[0] == sep then [""] + rest else [[s[0]] + rest[0]] + rest[1..]
  }

  /** strings.Join for a one-byte separator. */
  function Join(parts: seq<string>, sep: char): string {
    if |parts| == 0 then ""
    else if |parts| == 1 then parts[0]
    else parts[0] + [sep] + Join(parts[1..], sep)
  }

  /** No piece holds the separator. */
  lemma {:induction false} SplitPieces(s: string, sep: char)
    ensures forall i :: 0 <= i < |Split(s, sep)| ==> sep !in Split(s, sep)[i]
  {
    if s != "" {
      SplitPieces(s[1..], sep);
    }
  }

  lemma {:induction false} SplitNoSep(s: string, sep: char)
    requires sep !in s
    ensures Split(s, sep) == [s]
  {
    if s != "" {
      SplitNoSep(s[1..], sep);
      assert s == [s[0]] + s[1..];
    }
  }

  /** What Split makes of one more character in front. */
  function InFront(c: char, sep: char, parts: seq<string>): seq<string>
    requires |parts| >= 1
  {
    if c == sep then [""] + parts else [[c] + parts[0]] + parts[1..]
  }

  lemma SplitInFront(c: char, s: string, sep: char)
    ensures Split([c] + s, sep) == InFront(c, sep, Split(s, sep))
  {
    assert ([c] + s)[1..] == s;
  }

  lemma InFrontConcat(c: char, sep: char, a: seq<string>, b: seq<string>)
    requires |a| >= 1
    ensures InFront(c, sep, a + b) == InFront(c, sep, a) + b
  {
    assert (a + b)[1..] == a[1..] + b;
  }

  /** Splitting distributes over a separator between any two strings. */
  lemma {:induction false} SplitConcat(x: string, y: string, sep: char)
    ensures Split(x + [sep] + y, sep) == Split(x, sep) + Split(y, sep)
  {
    if x == "" {
      assert x + [sep] + y == [sep] + y;
      SplitInFront(sep, y, sep);
    } else {
      var rest := x[1..];
      assert x == [x[0]] + rest;
      assert x + [sep] + y == [x[0]] + (rest + [sep] + y);
      SplitInFront(x[0], rest + [sep] + y, sep);
      SplitInFront(x[0], rest, sep);
      SplitConcat(rest, y, sep);
      InFrontConcat(x[0], sep, Split(rest, sep), Split(y, sep));
    }
  }

  /** Splitting undoes joining when no part holds the separator. */
  lemma {:induction false} SplitJoin(parts: seq<string>, sep: char)
    requires |parts| >= 1
    requires forall p :: p in parts ==> sep !in p
    ensures Split(Join(parts, sep), sep) == parts
  {
    if |parts| == 1 {
      SplitNoSep(parts[0], sep);
    } else {
      SplitJoin(parts[1..], sep);
      SplitNoSep(parts[0], sep);
      SplitConcat(parts[0], Join(parts[1..], sep), sep);
      assert parts == [parts[0]] + parts[1..];
    }
  }

  lemma JoinInFront(c: char, sep: char, parts: seq<string>)
    requires |parts| >= 1
    ensures Join(InFront(c, sep, parts), sep) == [c] + Join(parts, sep)
  {
    var more := InFront(c, sep, parts);
    if c == sep {
      assert more[1..] == parts;
      assert "" + [sep] + Join(parts, sep) == [c] + Join(parts, sep);
    } else {
      assert more[1..] == parts[1..] && more[0] == [c] + parts[0];
      if |parts| > 1 {
        assert [c] + parts[0] + [sep] + Join(parts[1..], sep) == [c] + (parts[0] + [sep] + Join(parts[1..], sep));
      }
    }
  }

  /** Joining undoes splitting. */
  lemma {:induction false} JoinSplit(s: string, sep: char)
    ensures Join(Split(s, sep), sep) == s
  {
    if s != "" {
      JoinSplit(s[1..], sep);
      assert s == [s[0]] + s[1..];
      SplitInFront(s[0], s[1..], sep);
      JoinInFront(s[0], sep, Split(s[1..], sep));
    }
  }

  predicate SameFolded(x: seq<string>, y: seq<string>) {
    |x| == |y| && forall i :: 0 <= i < |x| ==> Lower(x[i]) == Lower(y[i])
  }

  lemma InFrontFolded(c: char, d: char, sep: char, x: seq<string>, y: seq<string>)
    requires |x| >= 1 && SameFolded(x, y) && Lower([c]) == Lower([d]) && (c == sep <==> d == sep)
    ensures SameFolded(InFront(c, sep, x), InFront(d, sep, y))
  {
    LowerConcat([c], x[0]);
    LowerConcat([d], y[0]);
  }

  /** Splitting does not depend on the case of the rest. */
  lemma {:induction false} SplitLower(a: string, b: string, sep: char)
    requires Lower(a) == Lower(b) && forall i :: 0 <= i < |a| ==> (a[i] == sep <==> b[i] == sep)
    ensures SameFolded(Split(a, sep), Split(b, sep))
  {
    assert |a| == |Lower(a)| == |b|;
    if a != "" {
      LowerTail(a, b);
      SplitLower(a[1..], b[1..], sep);
      InFrontFolded(a[0], b[0], sep, Split(a[1..], sep), Split(b[1..], sep));
      assert a == [a[0]] + a[1..] && b == [b[0]] + b[1..];
      SplitInFront(a[0], a[1..], sep);
      SplitInFront(b[0], b[1..], sep);
    }
  }

  lemma LowerTail(a: string, b: string)
    requires Lower(a) == Lower(b) && a != "" && b != ""
    ensures Lower(a[1..]) == Lower(b[1..]) && Lower([a[0]]) == Lower([b[0]])
  {
    assert Lower(a)[0] == Lower(b)[0];
    forall i | 0 <= i < |a| - 1 ensures Lower(a[1..])[i] == Lower(b[1..])[i] {
      assert Lower(a)[i+1] == Lower(b)[i+1];
    }
  }

  /** Joining is injective on lists of separator-free, non-empty words. */
  lemma JoinInjective(a: seq<string>, b: seq<string>, sep: char)
    requires forall i :: 0 <= i < |a| ==> sep !in a[i] && a[i] != ""
    requires forall i :: 0 <= i < |b| ==> sep !in b[i] && b[i] != ""
    requires Join(a, sep) == Join(b, sep)
    ensures a == b
  {
    if |a| > 0 && |b| > 0 {
      SplitJoin(a, sep);
      SplitJoin(b, sep);
    }
  }

  // ---------------------------------------------------------------- decimal digits

  function Digit(d: nat): char
    requires d < 10
  {
    ('0' as int + d) as char
  }

  predicate IsDigit(c: char) { '0' <= c <= '9' }

  function DigitValue(c: char): (d: nat)
    requires IsDigit(c)
    ensures d < 10
  {
    c as int - '0' as int
  }

  /** strconv.Itoa on a non-negative number. */
  function Itoa(n: nat): (s: string)
    ensures |s| >= 1
    ensures forall c :: c in s ==> IsDigit(c)
  {
    if n < 10 then [Digit(n)] else Itoa(n / 10) + [Digit(n % 10)]
  }

  /** The number a digit string denotes, most significant digit first. */
  function Value(s: string): nat
    requires forall c :: c in s ==> IsDigit(c)
  {
    if s == "" then 0 else 10 * Value(s[..|s|-1]) + DigitValue(s[|s|-1])
  }

  lemma {:induction false} ValueOfItoa(n: nat)
    ensures Value(Itoa(n)) == n
  {
    var s := Itoa(n);
    if n < 10 {
      assert s[..0] == "";
    } else {
      ValueOfItoa(n / 10);
      assert s[..|s|-1] == Itoa(n / 10);
    }
  }

  /** No leading zero is printed. */
  lemma {:induction false} ItoaFirstDigit(n: nat)
    requires n > 0
    ensures Itoa(n)[0] != '0'
  {
    if n >= 10 {
      ItoaFirstDigit(n / 10);
    }
  }
}
