/** Segment file names `segment_{n:05d}.ts`: decimal formatting with a
    minimum width of five, zero padded, and parsing the digits back. */
module SegmentNames {
  import Order
  import Text
  import opened Wrappers

  const Prefix := "segment_"
  const Suffix := ".ts"

  /** Counters below this bound format to exactly five digits. */
  const Width5Bound := 100000

  predicate IsDigit(c: char) {
    '0' <= c <= '9'
  }

  predicate AllDigits(s: string) {
    forall i :: 0 <= i < |s| ==> IsDigit(s[i])
  }

  function DigitValue(c: char): nat
    requires IsDigit(c)
  {
    c as int - '0' as int
  }

  function DigitChar(d: nat): (c: char)
    requires d < 10
    ensures IsDigit(c) && DigitValue(c) == d
  {
    ('0' as int + d) as char
  }

  function Pow10(k: nat): (p: nat)
    ensures p >= 1
  {
    if k == 0 then 1 else 10 * Pow10(k - 1)
  }

  /** The number a string of decimal digits denotes, most significant first;
      leading zeros add nothing. */
  function Value(s: string): nat
    requires AllDigits(s)
  {
    if |s| == 0 then 0 else 10 * Value(s[..|s| - 1]) + DigitValue(s[|s| - 1])
  }

  /** `str(n)`: decimal digits without leading zeros. */
  function Decimal(n: nat): (r: string)
    ensures 1 <= |r| && AllDigits(r)
    decreases n
  {
    if n < 10 then [DigitChar(n)] else Decimal(n / 10) + [DigitChar(n % 10)]
  }

  /** The digits of `str(n)` denote `n`. */
  lemma {:induction false} DecimalValue(n: nat)
    ensures Value(Decimal(n)) == n
    decreases n
  {
    if n >= 10 {
      var r := Decimal(n);
      assert r[..|r| - 1] == Decimal(n / 10);
      DecimalValue(n / 10);
    }
  }

  function Zeros(k: nat): (r: string)
    ensures |r| == k && AllDigits(r)
  {
    seq(k, _ => '0')
  }

  /** `f"{n:05d}"`: at least five digits, padded on the left with zeros. */
  function Format05(n: nat): (r: string)
    ensures AllDigits(r) && |r| >= 5
  {
    var d := Decimal(n);
    if |d| >= 5 then d else Zeros(5 - |d|) + d
  }

  /** Padding adds no value: the five or more digits still denote `n`. */
  lemma Format05Value(n: nat)
    ensures Value(Format05(n)) == n
  {
    var d := Decimal(n);
    DecimalValue(n);
    if |d| < 5 {
      ValueAfterZeros(5 - |d|, d);
    }
  }

  /** `f"segment_{n:05d}.ts"`. */
  function SegmentName(n: nat): (name: string)
  {
    Prefix + Format05(n) + Suffix
  }

  /** Reads the counter back out of a segment name, if it has the shape. */
  function ParseSegmentName(name: string): (r: Option<nat>)
  {
    if |name| >= |Prefix| + 5 + |Suffix| && Text.StartsWith(name, Prefix) && Text.EndsWith(name, Suffix)
       && AllDigits(name[|Prefix|..|name| - |Suffix|])
    then Some(Value(name[|Prefix|..|name| - |Suffix|]))
    else None
  }

  lemma {:induction false} ValueOfZeros(k: nat)
    ensures Value(Zeros(k)) == 0
  {
    if k > 0 {
      assert Zeros(k)[..k - 1] == Zeros(k - 1);
      ValueOfZeros(k - 1);
    }
  }

  lemma {:induction false} ValueAfterZeros(k: nat, s: string)
    requires AllDigits(s)
    ensures AllDigits(Zeros(k) + s) && Value(Zeros(k) + s) == Value(s)
    decreases |s|
  {
    var z := Zeros(k) + s;
    if |s| == 0 {
      assert z == Zeros(k);
      ValueOfZeros(k);
    } else {
      assert z[..|z| - 1] == Zeros(k) + s[..|s| - 1];
      ValueAfterZeros(k, s[..|s| - 1]);
    }
  }

  lemma {:induction false} ValueBound(s: string)
    requires AllDigits(s)
    ensures Value(s) < Pow10(|s|)
    decreases |s|
  {
    if |s| > 0 {
      ValueBound(s[..|s| - 1]);
    }
  }

  /** The value seen from the most significant digit. */
  lemma {:induction false} ValueFront(s: string)
    requires AllDigits(s) && |s| > 0
    ensures Value(s) == DigitValue(s[0]) * Pow10(|s| - 1) + Value(s[1..])
    decreases |s|
  {
    if |s| == 1 {
      assert s[..0] == [] && s[1..] == [];
    } else {
      var init, tail := s[..|s| - 1], s[1..];
      ValueFront(init);
      assert init[0] == s[0];
      assert tail[..|tail| - 1] == init[1..];
      var d, e := DigitValue(s[0]), DigitValue(s[|s| - 1]);
      var p, v := Pow10(|s| - 2), Value(init[1..]);
      assert Value(init) == d * p + v;
      assert Value(s) == 10 * Value(init) + e;
      assert Value(tail) == 10 * v + e;
      assert Pow10(|s| - 1) == 10 * p;
      ShiftDigit(d, p);
    }
  }

  lemma ShiftDigit(d: nat, p: nat)
    ensures 10 * (d * p) == d * (10 * p)
  {
  }

  lemma MulMono(x: nat, y: nat, p: nat)
    requires x <= y
    ensures x * p <= y * p
  {
    assert y * p == x * p + (y - x) * p;
  }

  /** A smaller leading digit makes a smaller number, whatever follows. */
  lemma LeadingDigitDecides(a: string, b: string)
    requires AllDigits(a) && AllDigits(b) && |a| == |b| > 0
    requires DigitValue(a[0]) < DigitValue(b[0])
    ensures Value(a) < Value(b)
  {
    ValueFront(a);
    ValueFront(b);
    ValueBound(a[1..]);
    var p := Pow10(|a| - 1);
    MulMono(DigitValue(a[0]) + 1, DigitValue(b[0]), p);
  }

  /** For digit strings of one length, string order is numeric order. */
  lemma {:induction false} DigitsOrder(a: string, b: string)
    requires AllDigits(a) && AllDigits(b) && |a| == |b|
    ensures Order.Less(a, b) <==> Value(a) < Value(b)
    decreases |a|
  {
    if |a| > 0 {
      if a[0] < b[0] {
        LeadingDigitDecides(a, b);
      } else if b[0] < a[0] {
        LeadingDigitDecides(b, a);
      } else {
        ValueFront(a);
        ValueFront(b);
        DigitsOrder(a[1..], b[1..]);
      }
    }
  }

  /** Digit strings of one length are equal exactly when their values are. */
  lemma DigitsInjective(a: string, b: string)
    requires AllDigits(a) && AllDigits(b) && |a| == |b| && Value(a) == Value(b)
    ensures a == b
  {
    Order.LessTotal(a, b);
    DigitsOrder(a, b);
    DigitsOrder(b, a);
  }

  /** `str(n)` has at most `k` digits exactly when `n < 10^k`. */
  lemma {:induction false} DecimalLength(n: nat, k: nat)
    requires k >= 1
    ensures |Decimal(n)| <= k <==> n < Pow10(k)
    decreases n
  {
    if n >= 10 {
      if k == 1 {
        assert |Decimal(n)| == |Decimal(n / 10)| + 1;
      } else {
        DecimalLength(n / 10, k - 1);
      }
    }
  }

  lemma Format05Length(n: nat)
    ensures |Format05(n)| == 5 <==> n < Width5Bound
  {
    DecimalLength(n, 5);
    assert Pow10(5) == Width5Bound;
  }

  /** A segment name is 16 characters long exactly when its counter is below 100000. */
  lemma SegmentNameLength(n: nat)
    ensures |SegmentName(n)| == |Prefix| + 5 + |Suffix| <==> n < Width5Bound
  {
    Format05Length(n);
  }

  /** Parsing the digits of a formatted name recovers the counter. */
  lemma ParseFormat(n: nat)
    ensures ParseSegmentName(SegmentName(n)) == Some(n)
  {
    var f := Format05(n);
    Format05Value(n);
    var name := SegmentName(n);
    assert name[..|Prefix|] == Prefix;
    assert name[|name| - |Suffix|..] == Suffix;
    assert name[|Prefix|..|name| - |Suffix|] == f;
  }

  /** Conversely, a 16-character name that parses is the formatted name of its counter. */
  lemma FormatParse(name: string, n: nat)
    requires ParseSegmentName(name) == Some(n) && |name| == |Prefix| + 5 + |Suffix|
    ensures n < Width5Bound && SegmentName(n) == name
  {
    var mid := name[|Prefix|..|name| - |Suffix|];
    ValueBound(mid);
    assert Pow10(5) == Width5Bound;
    Format05Length(n);
    Format05Value(n);
    DigitsInjective(Format05(n), mid);
    assert name == name[..|Prefix|] + mid + name[|name| - |Suffix|..];
  }

  lemma {:induction false} LessCommonPrefix(p: string, a: string, b: string)
    ensures Order.Less(p + a, p + b) <==> Order.Less(a, b)
    decreases |p|
  {
    if |p| > 0 {
      assert (p + a)[0] == p[0] == (p + b)[0];
      assert (p + a)[1..] == p[1..] + a;
      assert (p + b)[1..] == p[1..] + b;
      LessCommonPrefix(p[1..], a, b);
    } else {
      assert p + a == a && p + b == b;
    }
  }

  /** Between different strings of one length, what follows them does not matter. */
  lemma {:induction false} LessDecidedWithin(x: string, y: string, s: string, t: string)
    requires |x| == |y| && x != y
    ensures Order.Less(x + s, y + t) <==> Order.Less(x, y)
    decreases |x|
  {
    assert |x| > 0;
    if x[0] == y[0] {
      assert x == [x[0]] + x[1..] && y == [y[0]] + y[1..];
      assert (x + s)[1..] == x[1..] + s;
      assert (y + t)[1..] == y[1..] + t;
      LessDecidedWithin(x[1..], y[1..], s, t);
    }
  }

  /** Below 100000, sorting segment names as strings sorts them by counter. */
  lemma SegmentNameOrder(n: nat, m: nat)
    requires n < Width5Bound && m < Width5Bound
    ensures Order.Less(SegmentName(n), SegmentName(m)) <==> n < m
  {
    var x, y := Format05(n), Format05(m);
    Format05Length(n);
    Format05Length(m);
    Format05Value(n);
    Format05Value(m);
    assert SegmentName(n) == Prefix + (x + Suffix);
    assert SegmentName(m) == Prefix + (y + Suffix);
    LessCommonPrefix(Prefix, x + Suffix, y + Suffix);
    if x == y {
      Order.LessIrreflexive(x + Suffix);
    } else {
      LessDecidedWithin(x, y, Suffix, Suffix);
      DigitsOrder(x, y);
    }
  }

  /** At 100000 the width grows and string order stops following the counter. */
  lemma SegmentNameOrderBreaksAtWidth()
    ensures Order.Less(SegmentName(Width5Bound), SegmentName(Width5Bound - 1))
  {
    assert Decimal(1) == "1";
    assert Decimal(10) == "10";
    assert Decimal(100) == "100";
    assert Decimal(1000) == "1000";
    assert Decimal(10000) == "10000";
    assert Decimal(100000) == "100000";
    assert Decimal(9) == "9";
    assert Decimal(99) == "99";
    assert Decimal(999) == "999";
    assert Decimal(9999) == "9999";
    assert Decimal(99999) == "99999";
    assert Format05(100000) == "100000" && Format05(99999) == "99999";
    var x, y := "100000.ts", "99999.ts";
    assert SegmentName(Width5Bound) == Prefix + x;
    assert SegmentName(Width5Bound - 1) == Prefix + y;
    LessCommonPrefix(Prefix, x, y);
  }

  /** Different counters give different names. */
  lemma SegmentNameInjective(n: nat, m: nat)
    requires SegmentName(n) == SegmentName(m)
    ensures n == m
  {
    ParseFormat(n);
    ParseFormat(m);
  }

  /** A segment name starts and ends with `s` and is no `#` comment line. */
  lemma SegmentNameEnds(n: nat)
    ensures |SegmentName(n)| > 0 && SegmentName(n)[0] == 's' && SegmentName(n)[|SegmentName(n)| - 1] == 's'
  {
  }
}
