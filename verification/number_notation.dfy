/** How a printed number looks: its parts, when it has an exponent, and how its last digit is rounded. */
module NumberNotation {
  import opened Text
  import opened NumberFormat

  lemma BooleansAreNamed()
    ensures FormatNumber(Bool(true)) == "True" && FormatNumber(Bool(false)) == "False"
  {
  }

  // --- Two decimals -----------------------------------------------------------------------------

  /** A number that is not tiny is its sign, the whole part in groups of three, and the decimals, without
      zeros at the end and without a point when there are none. */
  lemma NumberForm(m: int, k: nat)
    requires !IsTiny(m, k)
    ensures
      var h := HalfEven(100 * Abs(m), Pow10(k));
      var (tenths, hundredths) := (Digit(h / 10 % 10), Digit(h % 10));
      FormatNumber(Number(m, k)) ==
        (if m < 0 then "-" else "")
        + (Grouped(h / 100)
           + if h % 100 == 0 then "" else if h % 10 == 0 then "." + [tenths] else "." + [tenths, hundredths])
  {
    PlainSigned(m, HalfEven(100 * Abs(m), Pow10(k)));
  }

  // --- Two significant digits ---------------------------------------------------------------------

  lemma Cancel(a: nat, b: nat, q: nat)
    requires q > 0
    ensures a * q <= b * q <==> a <= b
    ensures a * q == b * q <==> a == b
  {
    if a < b {
      AtMost(a + 1, b, q);
    } else {
      AtMost(b, a, q);
      if a > b {
        AtMost(b + 1, a, q);
      }
    }
  }

  lemma ErrorScaled(d: nat, m: nat, p: nat, q: nat)
    ensures 2 * Abs(d * (q * p) - m * q) == 2 * Abs(d * p - m) * q
  {
    Distribute(d, m, p, q);
    Scaled(d * p - m, q);
  }

  /** `d` is `m / p` rounded to the nearest, ties to the even one; scaling both does not change that. */
  lemma NearestScaled(d: nat, m: nat, p: nat, q: nat)
    requires q > 0 && 2 * Abs(m - d * p) <= p && (2 * Abs(m - d * p) == p ==> d % 2 == 0)
    ensures 2 * Abs(d * (q * p) - m * q) <= q * p
    ensures 2 * Abs(d * (q * p) - m * q) == q * p ==> d % 2 == 0
  {
    ErrorScaled(d, m, p, q);
    Cancel(2 * Abs(d * p - m), p, q);
  }

  /** The two digits are the nearest ones, and the even ones on a tie. */
  ghost predicate IsNearest(n: nat, s: nat, m: nat, k: nat) {
    && 2 * Abs(n * Pow10(k) - m * Pow10(s)) <= Pow10(k)
    && (2 * Abs(n * Pow10(k) - m * Pow10(s)) == Pow10(k) ==> n % 2 == 0)
  }

  lemma HundredIsNearest(m: nat, s: nat, k: nat)
    requires s > 0 && IsNearest(100, s, m, k)
    ensures IsNearest(10, s - 1, m, k)
  {
    assert m * Pow10(s) == 10 * (m * Pow10(s - 1));
    assert 100 * Pow10(k) == 10 * (10 * Pow10(k));
  }

  lemma RoundedDigits(m: nat, k: nat, length: nat)
    requires 1 < length <= k
    ensures IsNearest(HalfEven(m, Pow10(length - 2)), k - length + 2, m, k)
  {
    var (p, s) := (Pow10(length - 2), k - length + 2);
    Pow10Add(s, length - 2);
    HalfEvenIsNearest(m, p);
    NearestScaled(HalfEven(m, p), m, p, Pow10(s));
  }

  lemma OneDigitIsNearest(m: nat, k: nat)
    ensures IsNearest(m * 10, k + 1, m, k)
  {
    assert (m * 10) * Pow10(k) == m * Pow10(k + 1);
  }

  lemma ManyDigits(m: nat, k: nat, length: nat)
    requires m > 0 && length == |Digits(m)| && 1 < length <= k
    ensures
      var (d, x) := TwoSignificant(m, k);
      x >= 0 && IsNearest(d, x + 1, m, k)
  {
    RoundedDigits(m, k, length);
    if HalfEven(m, Pow10(length - 2)) == 100 {
      HundredIsNearest(m, k - length + 2, k);
    }
  }

  lemma SignificantDigits(m: nat, k: nat)
    requires m > 0 && 100 * m < Pow10(k)
    ensures
      var (d, x) := TwoSignificant(m, k);
      10 <= d < 100 && x > 1 && IsNearest(d, x + 1, m, k)
  {
    TinyFacts(m, k);
    DigitsBound(m);
    if |Digits(m)| == 1 {
      OneDigitIsNearest(m, k);
    } else {
      ManyDigits(m, k, |Digits(m)|);
    }
  }

  /** The reading, put as two digits, is the nearest such number, and the even one on a tie. */
  ghost predicate ReadsNearest(r: Reading, m: nat, k: nat) {
    && r.Read? && 0 < Abs(r.n) < 100
    && if Abs(r.n) < 10 then IsNearest(10 * Abs(r.n), r.s + 1, m, k) else IsNearest(Abs(r.n), r.s, m, k)
  }

  lemma SignificantReadsNearest(d: nat, x: nat, m: nat, k: nat)
    requires 10 <= d < 100 && IsNearest(d, x + 1, m, k)
    ensures ReadsNearest(Significant(d, x), m, k)
  {
    if d % 10 == 0 {
      assert 10 * (d / 10) == d;
    }
  }

  lemma NegatedReadsNearest(n: int, r: Reading, m: nat, k: nat)
    requires ReadsNearest(r, m, k)
    ensures ReadsNearest(Negated(n, r), m, k)
  {
  }

  /** A tiny number reads back as the nearest one of two digits. */
  lemma TinyIsNearest(m: int, k: nat)
    requires IsTiny(m, k)
    ensures ReadsNearest(ReadNumber(DropCommas(FormatNumber(Number(m, k)))), Abs(m), k)
  {
    var (d, x) := TwoSignificant(Abs(m), k);
    TinyText(m, k);
    SignificantDigits(Abs(m), k);
    SignificantReadsNearest(d, x, Abs(m), k);
    NegatedReadsNearest(m, Significant(d, x), Abs(m), k);
  }

  // --- The exponent -------------------------------------------------------------------------------

  lemma PointFirst(zeros: string, digits: string)
    requires AllDigits(zeros) && AllDigits(digits)
    ensures 'e' !in "0" + "." + zeros + digits && "0." <= "0" + "." + zeros + digits
  {
  }

  /** A digit, possibly a point and another digit, and at least two digits of a negative exponent. */
  ghost predicate IsScientific(t: string) {
    exists front: string, exponent: string ::
      && t == front + "e-" + exponent && (|front| == 1 || (|front| == 3 && front[1] == '.'))
      && AllDigits(exponent) && |exponent| >= 2 && (|exponent| > 2 ==> exponent[0] != '0')
  }

  lemma {:induction false} NoLeadingZero(n: nat)
    requires n > 0
    ensures Digits(n)[0] != '0'
  {
    if n >= 10 {
      NoLeadingZero(n / 10);
      DigitsRead(n / 10);
    }
  }

  lemma ExponentForm(x: nat)
    requires x > 0
    ensures
      var e := (if x < 10 then "0" else "") + Digits(x);
      AllDigits(e) && |e| >= 2 && (|e| > 2 ==> e[0] != '0')
  {
    ExponentDigits(x);
    if x >= 10 {
      NoLeadingZero(x);
      DigitsRead(x / 10);
      assert "" + Digits(x) == Digits(x);
    }
  }

  lemma MadeScientific(front: string, exponent: string)
    requires |front| == 1 || (|front| == 3 && front[1] == '.')
    requires AllDigits(exponent) && |exponent| >= 2 && (|exponent| > 2 ==> exponent[0] != '0')
    ensures IsScientific(front + "e-" + exponent) && 'e' in front + "e-" + exponent
  {
    assert (front + "e-" + exponent)[|front|] == 'e';
  }

  lemma MantissaLength(d: nat)
    requires 10 <= d < 100
    ensures |Mantissa(d, ".")| == 1 || (|Mantissa(d, ".")| == 3 && Mantissa(d, ".")[1] == '.')
  {
  }

  lemma ScientificIsScientific(d: nat, x: nat)
    requires 10 <= d < 100 && x > 4
    ensures IsScientific(General(d, x)) && 'e' in General(d, x)
  {
    var (front, zero) := (Mantissa(d, "."), if x < 10 then "0" else "");
    ExponentForm(x);
    MantissaLength(d);
    Regroup(front + "e-", zero, Digits(x), []);
    MadeScientific(front, zero + Digits(x));
  }

  lemma PlainHasNoExponent(d: nat, x: nat)
    requires 10 <= d < 100 && 0 < x <= 4
    ensures 'e' !in General(d, x) && "0." <= General(d, x)
  {
    ZerosValue(x - 1);
    MantissaValue(d);
    PointFirst(Zeros(x - 1), Mantissa(d, ""));
  }

  lemma PowersOrder(x: nat)
    ensures x <= 4 ==> Pow10(x) <= 10000
    ensures x > 4 ==> Pow10(x) >= 100000
  {
    assert Pow10(4) == 10000 && Pow10(5) == 100000;
    if x <= 4 { Pow10Grows(x, 4); } else { Pow10Grows(5, x); }
  }

  /** The size of the reading tells the decimal exponent. */
  lemma SizeTells(d: nat, x: nat)
    requires 10 <= d < 100
    ensures
      var r := Significant(d, x);
      10000 * r.n >= Pow10(r.s) <==> x <= 4
  {
    PowersOrder(x);
    if d % 10 == 0 {
      assert d / 10 >= 1;
    }
  }

  lemma SignIsNoExponent(m: int, t: string)
    ensures 'e' in Signed(m, t) <==> 'e' in t
  {
  }

  /** A tiny number has an exponent exactly when it reads as less than a ten-thousandth; otherwise it is
      written out behind a zero and a point. */
  lemma TinyNotation(m: int, k: nat)
    requires IsTiny(m, k)
    ensures
      var (text, r) := (FormatNumber(Number(m, k)), ReadNumber(DropCommas(FormatNumber(Number(m, k)))));
      && r.Read?
      && ('e' in text <==> 10000 * Abs(r.n) < Pow10(r.s))
      && exists t :: text == Signed(m, t) && if 'e' in text then IsScientific(t) else "0." <= t
  {
    var (d, x) := TwoSignificant(Abs(m), k);
    TinyText(m, k);
    SizeTells(d, x);
    SignIsNoExponent(m, General(d, x));
    if x <= 4 {
      PlainHasNoExponent(d, x);
    } else {
      ScientificIsScientific(d, x);
    }
  }
}
