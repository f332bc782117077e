// The numeric conversions the record store relies on: `strtol` and
// `strtof` as the parsers use them (how much of the text they consume, the
// value, the range error), the narrowing of a `long` to a 32-bit `int`,
// and the `%d` and `%.2f` formats the save routine writes.

module Numbers {

  import opened Text

  const IntMin: int := -0x8000_0000
  const IntMax: int := 0x7fff_ffff
  const LongMin: int := -0x8000_0000_0000_0000
  const LongMax: int := 0x7fff_ffff_ffff_ffff

  /** A C `int`. */
  type Int32 = x: int | -0x8000_0000 <= x <= 0x7fff_ffff

  /**
   * `(int)` applied to a `long`: the value modulo 2^32, read as a signed
   * 32-bit number (what the compilers the program targets do).
   */
  function ToInt32(v: int): (r: Int32)
    ensures IntMin <= v <= IntMax ==> r == v
    ensures (r - v) % 0x1_0000_0000 == 0
  {
    var m := v % 0x1_0000_0000;
    if m <= IntMax then m else m - 0x1_0000_0000
  }

  predicate IsDigit(c: char)
  {
    '0' <= c <= '9'
  }

  predicate AllDigits(s: string)
  {
    forall i :: 0 <= i < |s| ==> IsDigit(s[i])
  }

  function DigitValue(c: char): (d: nat)
    requires IsDigit(c)
    ensures d < 10
  {
    c as int - '0' as int
  }

  function DigitChar(d: nat): (c: char)
    requires d < 10
    ensures IsDigit(c) && DigitValue(c) == d
  {
    ('0' as int + d) as char
  }

  /** The value of a string of decimal digits, most significant first. */
  function DigitsValue(ds: string): nat
    requires AllDigits(ds)
  {
    if ds == [] then 0 else DigitsValue(ds[..|ds| - 1]) * 10 + DigitValue(ds[|ds| - 1])
  }

  function Pow10(k: nat): (p: nat)
    ensures p >= 1
  {
    if k == 0 then 1 else 10 * Pow10(k - 1)
  }

  /** The number of decimal digits of `s` from position `i` on. */
  function DigitRun(s: string, i: nat): (n: nat)
    requires i <= |s|
    ensures i + n <= |s|
    ensures AllDigits(s[i..i + n])
    ensures i + n < |s| ==> !IsDigit(s[i + n])
    decreases |s| - i
  {
    if i < |s| && IsDigit(s[i]) then
      var m := DigitRun(s, i + 1);
      assert forall k :: i + 1 <= k < i + 1 + m ==> s[k] == s[i + 1..i + 1 + m][k - i - 1];
      1 + m
    else 0
  }

  /** The digit run is the only length that fits its description. */
  lemma {:induction false} DigitRunUnique(s: string, i: nat, m: nat)
    requires i + m <= |s| && AllDigits(s[i..i + m]) && (i + m < |s| ==> !IsDigit(s[i + m]))
    ensures DigitRun(s, i) == m
    decreases m
  {
    if m > 0 {
      assert s[i] == s[i..i + m][0];
      assert s[i + 1..i + m] == s[i..i + m][1..];
      DigitRunUnique(s, i + 1, m - 1);
    }
  }

  // ---------------------------------------------------------------------
  // Printing

  /** `%d` of a non-negative number: its decimal digits, no leading zeros. */
  function Decimal(n: nat): (s: string)
    ensures |s| > 0 && AllDigits(s) && DigitsValue(s) == n
    ensures |s| > 1 ==> s[0] != '0'
  {
    if n < 10 then [DigitChar(n)]
    else
      var s := Decimal(n / 10) + [DigitChar(n % 10)];
      assert s[..|s| - 1] == Decimal(n / 10);
      s
  }

  /** `%d` of any `int`. */
  function FormatInt(v: int): (s: string)
    ensures v >= 0 ==> s == Decimal(v)
  {
    if v < 0 then "-" + Decimal(-v) else Decimal(v)
  }

  /** A value rounded to hundredths, halves away from zero, as a whole number of hundredths. */
  function Hundredths(m: real): (n: nat)
    requires m >= 0.0
    ensures (n as real) - 0.5 <= m * 100.0 < (n as real) + 0.5
  {
    (m * 100.0 + 0.5).Floor
  }

  /** `%.2f` of a non-negative value already rounded to `n` hundredths. */
  function FixedBody(n: nat): (s: string)
  {
    Decimal(n / 100) + "." + [DigitChar((n / 10) % 10), DigitChar(n % 10)]
  }

  /** `%.2f`: the value rounded to two decimals, a leading minus for negative values. */
  function FormatFixed2(m: real): string
  {
    if m < 0.0 then "-" + FixedBody(Hundredths(-m)) else FixedBody(Hundredths(m))
  }

  /** The value `%.2f` shows for a non-negative `m`, within half a hundredth of it. */
  function Rounded2(m: real): (r: real)
    requires m >= 0.0
    ensures r >= 0.0
    ensures m - 0.005 < r <= m + 0.005
    ensures m <= 100.0 ==> r <= 100.0
  {
    Hundredths(m) as real / 100.0
  }

  // ---------------------------------------------------------------------
  // Parsing

  /**
   * The outcome of a C conversion function: the value, how many characters
   * it consumed (0 when no number was found, `endptr == str`), and whether
   * it set `errno` to ERANGE.
   */
  datatype Conversion<T> = Conversion(value: T, end: nat, rangeError: bool)

  /** Where the digits start after the optional whitespace and sign, and the sign. */
  function SignAt(s: string, i: nat): (r: (nat, int))
    requires i <= |s|
    ensures i <= r.0 <= |s| && r.0 <= i + 1
    ensures r.1 == 1 || r.1 == -1
  {
    if i < |s| && s[i] == '-' then (i + 1, -1)
    else if i < |s| && s[i] == '+' then (i + 1, 1)
    else (i, 1)
  }

  /**
   * `strtol(s, &end, 10)`: skips whitespace, reads an optional sign and the
   * longest run of decimal digits. Without digits nothing is consumed and
   * the value is 0; a value outside the `long` range is clamped and flagged.
   */
  function StrToL(s: string): (c: Conversion<int>)
    ensures c.end <= |s|
    ensures c.end == 0 ==> c.value == 0 && !c.rangeError
    ensures LongMin <= c.value <= LongMax
  {
    var (j, sign) := SignAt(s, LeadingSpaces(s));
    var d := DigitRun(s, j);
    if d == 0 then Conversion(0, 0, false)
    else
      var v := sign * DigitsValue(s[j..j + d]);
      if v > LongMax then Conversion(LongMax, j + d, true)
      else if v < LongMin then Conversion(LongMin, j + d, true)
      else Conversion(v, j + d, false)
  }

  /** The value of a fraction's digits: "25" after the point is 0.25. */
  function FractionValue(ds: string): real
    requires AllDigits(ds)
  {
    DigitsValue(ds) as real / Pow10(|ds|) as real
  }

  /**
   * `strtof(s, &end)` on decimal text: skips whitespace, reads an optional
   * sign, digits, and an optional point followed by digits; at least one
   * digit must be present or nothing is consumed.
   */
  function StrToF(s: string): (c: Conversion<real>)
    ensures c.end <= |s|
    ensures c.end == 0 ==> c.value == 0.0
    ensures !c.rangeError
  {
    var (j, sign) := SignAt(s, LeadingSpaces(s));
    var d1 := DigitRun(s, j);
    var point := j + d1 < |s| && s[j + d1] == '.';
    var d2 := if point then DigitRun(s, j + d1 + 1) else 0;
    if d1 + d2 == 0 then Conversion(0.0, 0, false)
    else
      var whole := DigitsValue(s[j..j + d1]) as real;
      var frac := if point then FractionValue(s[j + d1 + 1..j + d1 + 1 + d2]) else 0.0;
      var end := if point then j + d1 + 1 + d2 else j + d1;
      Conversion(sign as real * (whole + frac), end, false)
  }

  // ---------------------------------------------------------------------
  // Round trips

  /** `strtol` reads back what `%d` prints, consuming all of it. */
  lemma StrToLDecimal(n: nat)
    requires n <= LongMax
    ensures StrToL(Decimal(n)) == Conversion(n, |Decimal(n)|, false)
  {
    var s := Decimal(n);
    assert LeadingSpaces(s) == 0 by { assert IsDigit(s[0]); }
    assert s[0..|s|] == s;
    DigitRunUnique(s, 0, |s|);
  }

  /** The digits of a fixed-point body: before the point, the point, two after it. */
  lemma FixedBodyShape(n: nat)
    ensures var s := FixedBody(n);
      var q := Decimal(n / 100);
      && |s| == |q| + 3
      && s[..|q|] == q && s[|q|] == '.'
      && AllDigits(s[|q| + 1..]) && DigitsValue(s[|q| + 1..]) == n % 100
  {
    var s := FixedBody(n);
    var q := Decimal(n / 100);
    var f := s[|q| + 1..];
    assert f == [DigitChar((n / 10) % 10), DigitChar(n % 10)];
    assert f[..1] == [DigitChar((n / 10) % 10)];
    assert f[..1][..0] == [];
    assert DigitsValue(f[..1]) == (n / 10) % 10;
    assert DigitsValue(f) == ((n / 10) % 10) * 10 + n % 10;
    var r := n % 100;
    assert n == 100 * (n / 100) + r;
    assert n / 10 == 10 * (n / 100) + r / 10;
    assert (n / 10) % 10 == r / 10;
  }

  /** `strtof` reads back the value `%.2f` printed, consuming all of it. */
  lemma StrToFFixed(m: real)
    requires m >= 0.0
    ensures StrToF(FormatFixed2(m)) == Conversion(Rounded2(m), |FormatFixed2(m)|, false)
  {
    var n := Hundredths(m);
    FixedBodyRead(n);
    assert (n / 100) as real + (n % 100) as real / 100.0 == n as real / 100.0;
  }

  /** How `strtof` scans `%.2f` text: no sign, the whole digits, the point, two digits. */
  lemma FixedBodyRead(n: nat)
    ensures var s := FixedBody(n);
      var q := Decimal(n / 100);
      && |s| == |q| + 3 && s[|q|] == '.'
      && LeadingSpaces(s) == 0 && SignAt(s, 0) == (0, 1)
      && DigitRun(s, 0) == |q| && DigitsValue(s[0..|q|]) == n / 100
      && DigitRun(s, |q| + 1) == 2 && FractionValue(s[|q| + 1..|q| + 3]) == (n % 100) as real / 100.0
  {
    FixedBodyShape(n);
    FixedWhole(n);
    FixedFraction(n);
  }

  lemma FixedWhole(n: nat)
    ensures var s := FixedBody(n);
      var q := Decimal(n / 100);
      && LeadingSpaces(s) == 0 && SignAt(s, 0) == (0, 1)
      && DigitRun(s, 0) == |q| && DigitsValue(s[0..|q|]) == n / 100
  {
    var s := FixedBody(n);
    var q := Decimal(n / 100);
    FixedBodyShape(n);
    assert s[0] == q[0];
    assert s[0..|q|] == q;
    DigitRunUnique(s, 0, |q|);
  }

  lemma FixedFraction(n: nat)
    ensures var s := FixedBody(n);
      var q := Decimal(n / 100);
      && DigitRun(s, |q| + 1) == 2 && FractionValue(s[|q| + 1..|q| + 3]) == (n % 100) as real / 100.0
  {
    var s := FixedBody(n);
    var q := Decimal(n / 100);
    FixedBodyShape(n);
    assert s[|q| + 1..|q| + 3] == s[|q| + 1..];
    DigitRunUnique(s, |q| + 1, 2);
  }
}
