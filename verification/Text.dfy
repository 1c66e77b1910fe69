/** Decimal text, splitting and byte order: what the timestamp code needs of strings. */
module Text {
  import opened Results

  // ---- digits -----------------------------------------------------------------------

  predicate IsDigit(c: char) {
    '0' <= c <= '9'
  }

  predicate AllDigits(s: string) {
    forall i :: 0 <= i < |s| ==> IsDigit(s[i])
  }

  function DigitValue(c: char): (v: nat)
    requires IsDigit(c)
    ensures v < 10
  {
    c as int - '0' as int
  }

  function Digit(d: nat): (c: char)
    requires d < 10
    ensures IsDigit(c) && DigitValue(c) == d
  {
    ('0' as int + d) as char
  }

  /** The number a digit string stands for; the empty string stands for zero. */
  function Value(s: string): nat
    requires AllDigits(s)
  {
    if s == [] then 0 else 10 * Value(s[..|s| - 1]) + DigitValue(s[|s| - 1])
  }


  /** Plain decimal, without leading zeros. */
  function Decimal(n: nat): (s: string)
    ensures |s| >= 1 && AllDigits(s)
  {
    if n < 10 then [Digit(n)] else Decimal(n / 10) + [Digit(n % 10)]
  }

  /** Decimal padded with zeros on the left to at least `width` characters, the sign counting as one. */
  function Padded(n: int, width: nat): string {
    if n < 0 then "-" + PaddedNat(-n, if width == 0 then 0 else width - 1) else PaddedNat(n, width)
  }

  function PaddedNat(n: nat, width: nat): (s: string)
    ensures |s| >= 1 && AllDigits(s)
  {
    var d := Decimal(n);
    if |d| >= width then d else Zeros(width - |d|) + d
  }

  function Zeros(k: nat): (s: string)
    ensures |s| == k && AllDigits(s)
  {
    seq(k, _ => '0')
  }

  function Pow10(k: nat): nat {
    if k == 0 then 1 else 10 * Pow10(k - 1)
  }

  lemma {:induction false} DecimalValue(n: nat)
    ensures Value(Decimal(n)) == n
  {
    var d := Decimal(n);
    if n < 10 {
      assert d[..|d| - 1] == [];
    } else {
      DecimalValue(n / 10);
      assert d[..|d| - 1] == Decimal(n / 10);
    }
  }

  lemma {:induction false} ZerosInFront(k: nat, s: string)
    requires AllDigits(s)
    ensures AllDigits(Zeros(k) + s) && Value(Zeros(k) + s) == Value(s)
  {
    var z := Zeros(k) + s;
    if s == [] {
      assert z == Zeros(k);
      ZerosAreZero(k);
    } else {
      assert z[..|z| - 1] == Zeros(k) + s[..|s| - 1];
      ZerosInFront(k, s[..|s| - 1]);
    }
  }

  lemma {:induction false} ZerosAreZero(k: nat)
    ensures Value(Zeros(k)) == 0
  {
    if k > 0 {
      assert Zeros(k)[..k - 1] == Zeros(k - 1);
      ZerosAreZero(k - 1);
    }
  }

  lemma PaddedValue(n: nat, width: nat)
    ensures Value(PaddedNat(n, width)) == n
  {
    DecimalValue(n);
    var d := Decimal(n);
    if |d| < width {
      ZerosInFront(width - |d|, d);
    }
  }

  lemma {:induction false} DecimalLength(n: nat, width: nat)
    requires width >= 1 && n < Pow10(width)
    ensures |Decimal(n)| <= width
  {
    if n >= 10 {
      DecimalLength(n / 10, width - 1);
    }
  }

  lemma PaddedLength(n: nat, width: nat)
    requires width >= 1 && n < Pow10(width)
    ensures |PaddedNat(n, width)| == width
  {
    DecimalLength(n, width);
  }

  /** Digit strings of one length with one value are the same string. */
  lemma {:induction false} SameValueSameText(a: string, b: string)
    requires |a| == |b| && AllDigits(a) && AllDigits(b) && Value(a) == Value(b)
    ensures a == b
  {
    if a != [] {
      var n := |a| - 1;
      assert Value(a[..n]) == Value(b[..n]);
      SameValueSameText(a[..n], b[..n]);
      assert a == a[..n] + [a[n]] && b == b[..n] + [b[n]];
    }
  }

  // ---- parsing ------------------------------------------------------------------------

  const U32_LIMIT := 0x1_0000_0000

  /** Unsigned 32-bit parsing: an optional plus sign, at least one digit, no overflow. */
  function ParseU32(s: string): Option<nat> {
    var digits := if s != [] && s[0] == '+' then s[1..] else s;
    if digits != [] && AllDigits(digits) && Value(digits) < U32_LIMIT then Some(Value(digits)) else None
  }

  /** Exactly `width` digits. */
  function ParseFixedDigits(s: string, width: nat): Option<nat> {
    if |s| == width && AllDigits(s) then Some(Value(s)) else None
  }

  /** Exactly the padded texts of that width are read. */
  lemma FixedIsPadded(s: string, width: nat)
    requires width >= 1 && ParseFixedDigits(s, width).Some?
    ensures Value(s) < Pow10(width) && s == PaddedNat(Value(s), width)
  {
    ValueBound(s);
    PaddedLength(Value(s), width);
    PaddedValue(Value(s), width);
    SameValueSameText(s, PaddedNat(Value(s), width));
  }

  lemma {:induction false} ValueBound(s: string)
    requires AllDigits(s)
    ensures Value(s) < Pow10(|s|)
  {
    if s != [] {
      ValueBound(s[..|s| - 1]);
    }
  }

  lemma ParsePadded(n: nat, width: nat)
    requires n < U32_LIMIT
    ensures ParseU32(PaddedNat(n, width)) == Some(n)
  {
    PaddedValue(n, width);
    assert IsDigit(PaddedNat(n, width)[0]);
  }

  /** The pieces between occurrences of `c`. */
  function Split(s: string, c: char): (parts: seq<string>)
    ensures |parts| >= 1
  {
    if s == [] then [[]]
    else
      var rest := Split(s[1..], c);
      if s[0] == c then [[]] + rest else [[s[0]] + rest[0]] + rest[1..]
  }

  lemma {:induction false} SplitAbsent(s: string, c: char)
    requires c !in s
    ensures Split(s, c) == [s]
  {
    if s != [] {
      SplitAbsent(s[1..], c);
      assert [s[0]] + s[1..] == s;
    }
  }

  lemma {:induction false} SplitFirst(a: string, c: char, b: string)
    requires c !in a
    ensures Split(a + [c] + b, c) == [a] + Split(b, c)
  {
    var s := a + [c] + b;
    if a == [] {
      assert s[1..] == b;
    } else {
      SplitFirst(a[1..], c, b);
      assert s[1..] == a[1..] + [c] + b;
      assert [a[0]] + a[1..] == a;
      var rest := [a[1..]] + Split(b, c);
      assert rest[1..] == Split(b, c);
    }
  }

  /** The first piece, the mark, and what splits into the other pieces. */
  lemma {:induction false} SplitHead(s: string, c: char) returns (rest: string)
    requires |Split(s, c)| > 1
    ensures s == Split(s, c)[0] + [c] + rest && Split(rest, c) == Split(s, c)[1..]
  {
    if s[0] == c {
      rest := s[1..];
      assert s == [] + [c] + rest;
    } else {
      rest := SplitHead(s[1..], c);
      assert s == [s[0]] + s[1..];
      assert Split(s, c)[1..] == Split(s[1..], c)[1..];
    }
  }

  lemma {:induction false} SplitSingle(s: string, c: char)
    requires |Split(s, c)| == 1
    ensures Split(s, c)[0] == s
  {
    if s != [] {
      SplitSingle(s[1..], c);
      assert s == [s[0]] + s[1..];
    }
  }

  /** Before and after the first occurrence of `c`. */
  function SplitOnce(s: string, c: char): Option<(string, string)> {
    if s == [] then None
    else if s[0] == c then Some(([], s[1..]))
    else
      var rest := SplitOnce(s[1..], c);
      if rest.None? then None else Some(([s[0]] + rest.value.0, rest.value.1))
  }

  lemma {:induction false} SplitOnceAt(a: string, c: char, b: string)
    requires c !in a
    ensures SplitOnce(a + [c] + b, c) == Some((a, b))
  {
    var s := a + [c] + b;
    if a == [] {
      assert s[1..] == b;
    } else {
      SplitOnceAt(a[1..], c, b);
      assert s[1..] == a[1..] + [c] + b;
      assert [a[0]] + a[1..] == a;
    }
  }

  lemma {:induction false} SplitOnceJoins(s: string, c: char)
    ensures SplitOnce(s, c).Some? ==> s == SplitOnce(s, c).value.0 + [c] + SplitOnce(s, c).value.1
  {
    if s != [] && s[0] != c {
      SplitOnceJoins(s[1..], c);
      assert s == [s[0]] + s[1..];
    } else if s != [] {
      assert s == [] + [c] + s[1..];
    }
  }

  // ---- byte order -----------------------------------------------------------------------

  /** Lexicographic order, a proper prefix first. */
  predicate TextLess(a: string, b: string) {
    b != [] && (a == [] || a[0] < b[0] || (a[0] == b[0] && TextLess(a[1..], b[1..])))
  }

  lemma {:induction false} NotLessThanSelf(a: string)
    ensures !TextLess(a, a)
  {
    if a != [] {
      NotLessThanSelf(a[1..]);
    }
  }

  /** Pieces of equal length compare piece by piece. */
  lemma {:induction false} LessByParts(a: string, b: string, x: string, y: string)
    requires |a| == |b|
    ensures TextLess(a + x, b + y) <==> TextLess(a, b) || (a == b && TextLess(x, y))
  {
    if a == [] {
      assert a + x == x && b + y == y;
    } else {
      LessByParts(a[1..], b[1..], x, y);
      assert (a + x)[1..] == a[1..] + x && (b + y)[1..] == b[1..] + y;
      assert a == [a[0]] + a[1..] && b == [b[0]] + b[1..];
    }
  }

  /** Digit strings of one length are in text order exactly when in number order. */
  lemma {:induction false} LessIsLessValue(a: string, b: string)
    requires |a| == |b| && AllDigits(a) && AllDigits(b)
    ensures TextLess(a, b) <==> Value(a) < Value(b)
  {
    if a != [] {
      var n := |a| - 1;
      LessIsLessValue(a[..n], b[..n]);
      if Value(a[..n]) == Value(b[..n]) {
        SameValueSameText(a[..n], b[..n]);
      } else if a[..n] == b[..n] {
        assert false;
      }
      LessByParts(a[..n], b[..n], [a[n]], [b[n]]);
      assert a == a[..n] + [a[n]] && b == b[..n] + [b[n]];
      assert TextLess([a[n]], [b[n]]) <==> a[n] < b[n];
    }
  }

  lemma PaddedOrder(m: nat, n: nat, width: nat)
    requires width >= 1 && m < Pow10(width) && n < Pow10(width)
    ensures TextLess(PaddedNat(m, width), PaddedNat(n, width)) <==> m < n
    ensures PaddedNat(m, width) == PaddedNat(n, width) <==> m == n
  {
    PaddedLength(m, width); PaddedLength(n, width);
    PaddedValue(m, width); PaddedValue(n, width);
    LessIsLessValue(PaddedNat(m, width), PaddedNat(n, width));
  }
}
