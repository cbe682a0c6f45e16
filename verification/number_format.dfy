/** Numbers as alerts print them, and what a reader makes of the text. */
module NumberFormat {
  import opened Text

  /** A boolean, or the number `m` times ten to the power of `-k`: every finite float is one exactly. */
  datatype Value = Bool(b: bool) | Number(m: int, k: nat)

  function Pow10(k: nat): (p: nat)
    ensures p > 0
  {
    if k == 0 then 1 else 10 * Pow10(k - 1)
  }

  function Abs(m: int): nat { if m < 0 then -m else m }

  /** `n / d` rounded to an integer, ties to the even one. */
  function HalfEven(n: nat, d: nat): nat
    requires d > 0
  {
    var (q, r) := (n / d, n % d);
    if 2 * r < d || (2 * r == d && q % 2 == 0) then q else q + 1
  }

  lemma Division(n: nat, d: nat)
    requires d > 0
    ensures n == (n / d) * d + n % d && (n / d + 1) * d == (n / d) * d + d
  {
  }

  lemma HalfEvenIsNearest(n: nat, d: nat)
    requires d > 0
    ensures 2 * Abs(n - HalfEven(n, d) * d) <= d
    ensures 2 * Abs(n - HalfEven(n, d) * d) == d ==> HalfEven(n, d) % 2 == 0
  {
    Division(n, d);
  }

  lemma AtMost(a: nat, b: nat, p: nat)
    requires a <= b
    ensures a * p <= b * p
  {
  }

  // --- Writing ----------------------------------------------------------------------------

  function ThreeDigits(n: nat): string
    requires n < 1000
  {
    [Digit(n / 100), Digit(n / 10 % 10), Digit(n % 10)]
  }

  /** Digits with thousands commas. */
  function Grouped(n: nat): string {
    if n < 1000 then Digits(n) else Grouped(n / 1000) + "," + ThreeDigits(n % 1000)
  }

  function TwoPlaces(h: nat): string {
    Grouped(h / 100) + "." + [Digit(h / 10 % 10), Digit(h % 10)]
  }

  function Plain(text: string): string {
    if '.' in text then TrimRight(TrimRight(text, "0"), ".") else text
  }

  function Signed(m: int, text: string): string { if m < 0 then "-" + text else text }

  /** Two significant digits and the decimal exponent of the first: `(d, x)` stands for `d/10` times ten
      to the power of `-x`. */
  function TwoSignificant(m: nat, k: nat): (r: (nat, int))
    requires m > 0
  {
    var length := |Digits(m)|;
    var d := if length == 1 then m * 10 else HalfEven(m, Pow10(length - 2));
    if d == 100 then (10, k - length) else (d, k - length + 1)
  }

  function Zeros(n: nat): string { seq(n, _ => '0') }

  function Mantissa(d: nat, point: string): string
    requires d < 100
  {
    if d % 10 == 0 then [Digit(d / 10)] else [Digit(d / 10)] + point + [Digit(d % 10)]
  }

  /** The general format with precision 2, for magnitudes below one. */
  function General(d: nat, x: nat): string
    requires d < 100 && x > 0
  {
    if x <= 4 then "0" + "." + Zeros(x - 1) + Mantissa(d, "")
    else Mantissa(d, ".") + "e-" + (if x < 10 then "0" else "") + Digits(x)
  }

  predicate IsTiny(m: int, k: nat) { m != 0 && 100 * Abs(m) < Pow10(k) }

  function FormatNumber(v: Value): string {
    match v
    case Bool(b) => if b then "True" else "False"
    case Number(m, k) =>
      if IsTiny(m, k) then
        TinyFacts(Abs(m), k);
        var (d, x) := TwoSignificant(Abs(m), k);
        Signed(m, General(d, x))
      else
        Plain(Signed(m, TwoPlaces(HalfEven(100 * Abs(m), Pow10(k)))))
  }

  // --- Reading ----------------------------------------------------------------------------

  function DropCommas(s: string): string {
    if s == [] then [] else (if s[0] == ',' then [] else [s[0]]) + DropCommas(s[1..])
  }

  /** The number `n` times ten to the power of `-s`. */
  datatype Reading = Unreadable | Read(n: int, s: nat)

  /** Digits with an optional point. */
  function ReadPlain(s: string): Reading {
    var (whole, part) := (Before(s, '.'), After(s, '.'));
    if whole == [] || !AllDigits(whole + part) then Unreadable
    else Read(DigitsValue(whole + part), |part|)
  }

  /** Digits with an optional point and an optional negative exponent. */
  function ReadMagnitude(s: string): Reading {
    var (front, exponent) := (Before(s, 'e'), After(s, 'e'));
    match ReadPlain(front)
    case Unreadable => Unreadable
    case Read(n, scale) =>
      if 'e' !in s then Read(n, scale)
      else if |exponent| > 1 && exponent[0] == '-' && AllDigits(exponent[1..]) then
        Read(n, scale + DigitsValue(exponent[1..]))
      else Unreadable
  }

  function ReadNumber(s: string): Reading {
    if s != [] && s[0] == '-' then
      match ReadMagnitude(s[1..])
      case Unreadable => Unreadable
      case Read(n, scale) => Read(-n, scale)
    else ReadMagnitude(s)
  }

  // --- Digits -----------------------------------------------------------------------------

  lemma {:induction false} DigitsBound(n: nat)
    requires n > 0
    ensures Digits(n) != [] && Pow10(|Digits(n)| - 1) <= n < Pow10(|Digits(n)|)
  {
    if n >= 10 {
      DigitsBound(n / 10);
    } else {
      assert Pow10(1) == 10;
    }
  }

  lemma ScaleUp(v: nat, p: nat, w: nat, d: nat)
    ensures 10 * (v * p + w) + d == v * (10 * p) + (10 * w + d)
  {
  }

  lemma DigitsValueLast(s: string, c: char)
    requires AllDigits(s) && IsDigit(c)
    ensures AllDigits(s + [c]) && DigitsValue(s + [c]) == 10 * DigitsValue(s) + (c as int - '0' as int)
  {
    assert (s + [c])[..|s|] == s;
  }

  lemma {:induction false} DigitsValueAppend(a: string, b: string)
    requires AllDigits(a) && AllDigits(b)
    ensures AllDigits(a + b) && DigitsValue(a + b) == DigitsValue(a) * Pow10(|b|) + DigitsValue(b)
    decreases |b|
  {
    if b == [] {
      assert a + b == a;
    } else {
      var (c, last) := (b[..|b| - 1], b[|b| - 1]);
      DigitsValueAppend(a, c);
      assert a + b == (a + c) + [last];
      DigitsValueLast(a + c, last);
      ScaleUp(DigitsValue(a), Pow10(|c|), DigitsValue(c), last as int - '0' as int);
    }
  }

  lemma {:induction false} Pow10Add(a: nat, b: nat)
    ensures Pow10(a + b) == Pow10(a) * Pow10(b)
  {
    if a > 0 {
      Pow10Add(a - 1, b);
      assert 10 * (Pow10(a - 1) * Pow10(b)) == Pow10(a) * Pow10(b);
    }
  }

  lemma {:induction false} Pow10Grows(a: nat, b: nat)
    requires a <= b
    ensures Pow10(a) <= Pow10(b)
  {
    if a < b {
      Pow10Grows(a, b - 1);
    }
  }

  /** The first digit of a number below one hundredth stands at the third place or later. */
  lemma TinyFacts(m: nat, k: nat)
    requires m > 0 && 100 * m < Pow10(k)
    ensures var (d, x) := TwoSignificant(m, k); 10 <= d < 100 && x > 1
  {
    var length := |Digits(m)|;
    DigitsBound(m);
    if length + 1 >= k {
      assert Pow10(length + 1) == 100 * Pow10(length - 1);
      Pow10Grows(k, length + 1);
    }
    if length > 1 {
      LeadingTwo(m, Pow10(length - 2));
    }
  }

  lemma LeadingTwo(m: nat, p: nat)
    requires p > 0 && 10 * p <= m < 100 * p
    ensures 10 <= HalfEven(m, p) <= 100
  {
    var q := HalfEven(m, p);
    HalfEvenIsNearest(m, p);
    if q < 10 {
      AtMost(q, 9, p);
    }
    if q > 100 {
      AtMost(101, q, p);
    }
  }

  // --- Text -------------------------------------------------------------------------------

  lemma {:induction false} DropCommasAppend(a: string, b: string)
    ensures DropCommas(a + b) == DropCommas(a) + DropCommas(b)
  {
    if a == [] {
      assert a + b == b;
    } else {
      assert (a + b)[1..] == a[1..] + b;
      DropCommasAppend(a[1..], b);
    }
  }

  lemma {:induction false} NoCommas(s: string)
    requires ',' !in s
    ensures DropCommas(s) == s
  {
    if s != [] {
      NoCommas(s[1..]);
    }
  }

  lemma Thousands(n: nat)
    ensures n / 10 / 10 / 10 == n / 1000
    ensures
      var t := n % 1000;
      t / 100 == n / 10 / 10 % 10 && t / 10 % 10 == n / 10 % 10 && t % 10 == n % 10
  {
  }

  lemma ThreeMoreDigits(n: nat)
    requires n >= 1000
    ensures Digits(n) == Digits(n / 1000) + ThreeDigits(n % 1000)
  {
    var (a, b) := (n / 10, n / 10 / 10);
    Thousands(n);
    assert Digits(a) == Digits(b) + [Digit(a % 10)] && Digits(b) == Digits(b / 10) + [Digit(b % 10)];
    assert ThreeDigits(n % 1000) == [Digit(b % 10)] + [Digit(a % 10)] + [Digit(n % 10)];
  }

  lemma {:induction false} GroupedRead(n: nat)
    ensures DropCommas(Grouped(n)) == Digits(n)
    ensures Grouped(n) != [] && IsDigit(Grouped(n)[0]) && IsDigit(Grouped(n)[|Grouped(n)| - 1])
  {
    DigitsRead(n);
    if n < 1000 {
      NoCommas(Digits(n));
    } else {
      var three := ThreeDigits(n % 1000);
      GroupedRead(n / 1000);
      DropCommasAppend(Grouped(n / 1000) + ",", three);
      DropCommasAppend(Grouped(n / 1000), ",");
      NoCommas(three);
      ThreeMoreDigits(n);
    }
  }

  lemma CommaFromTheRight(front: string, three: string, i: nat)
    requires |three| == 3 && AllDigits(three) && i < |front| + 4
    ensures
      var s := front + "," + three;
      s[|s| - 1 - i] == ',' <==> i == 3 || (i >= 4 && front[|front| - 1 - (i - 4)] == ',')
  {
    var s := front + "," + three;
    if i >= 4 {
      assert s[|s| - 1 - i] == front[|front| - 1 - (i - 4)];
    } else if i < 3 {
      assert s[|s| - 1 - i] == three[2 - i];
    }
  }

  lemma ShortHasNoComma(n: nat, i: nat)
    requires n < 1000 && i < |Digits(n)|
    ensures i < 3 && Digits(n)[|Digits(n)| - 1 - i] != ','
  {
    DigitsRead(n);
    ShortDigits(n);
    assert IsDigit(Digits(n)[|Digits(n)| - 1 - i]);
  }

  lemma LongHasOneMore(n: nat, i: nat)
    requires n >= 1000 && i < |Grouped(n)|
    ensures |Grouped(n)| == |Grouped(n / 1000)| + 4
    ensures Grouped(n)[|Grouped(n)| - 1 - i] == ','
       <==> i == 3 || (i >= 4 && Grouped(n / 1000)[|Grouped(n / 1000)| - 1 - (i - 4)] == ',')
  {
    CommaFromTheRight(Grouped(n / 1000), ThreeDigits(n % 1000), i);
  }

  /** Counted from the right, every fourth character is a comma, and no other. */
  lemma {:induction false} CommasAtThousands(n: nat, i: nat)
    requires i < |Grouped(n)|
    ensures Grouped(n)[|Grouped(n)| - 1 - i] == ',' <==> i % 4 == 3
  {
    if n < 1000 {
      ShortHasNoComma(n, i);
    } else {
      LongHasOneMore(n, i);
      if i >= 4 {
        CommasAtThousands(n / 1000, i - 4);
      }
    }
  }

  lemma ShortDigits(n: nat)
    requires n < 1000
    ensures |Digits(n)| <= 3
  {
    assert n / 10 < 100 && n / 10 / 10 < 10;
    assert |Digits(n / 10 / 10)| == 1 && |Digits(n / 10)| <= 2;
  }

  /** The decimals that stay. */
  function Fraction(h: nat): string {
    if h % 100 == 0 then [] else if h % 10 == 0 then [Digit(h / 10 % 10)] else [Digit(h / 10 % 10), Digit(h % 10)]
  }

  function Pointed(fraction: string): string { if fraction == [] then [] else "." + fraction }

  lemma TrimTwice(text: string, zeros: string, point: string, s: string)
    requires s != [] && s[|s| - 1] != '.' && (point == "" || point == ".") && (s + point)[|s + point| - 1] != '0'
    requires forall i | 0 <= i < |zeros| :: zeros[i] == '0'
    requires text == s + point + zeros && '.' in text
    ensures Plain(text) == s
  {
    Trimmed(s + point, zeros, "0");
    Trimmed(s, point, ".");
  }

  /** Trimming text that ends in a point and two decimals. */
  lemma PlainForm(whole: string, c: char, d: char)
    requires whole != [] && IsDigit(whole[|whole| - 1]) && c != '.' && d != '.'
    ensures Plain(whole + "." + [c, d]) == whole + Pointed(if d != '0' then [c, d] else if c != '0' then [c] else [])
  {
    var text := whole + "." + [c, d];
    assert text[|whole|] == '.';
    if d != '0' {
      assert text == whole + ("." + [c, d]) && text == text + "" + "";
      TrimTwice(text, "", "", text);
    } else if c != '0' {
      assert text == whole + ("." + [c]) + "" + [d];
      TrimTwice(text, [d], "", whole + ("." + [c]));
    } else {
      TrimTwice(text, [c, d], ".", whole);
      assert whole + [] == whole;
    }
  }

  lemma Regroup(a: string, b: string, c: string, d: string)
    ensures a + (b + c + d) == a + b + c + d
    ensures a + (b + c) == a + b + c
  {
  }

  lemma PlainTwoPlaces(front: string, h: nat)
    ensures Plain(front + TwoPlaces(h)) == front + (Grouped(h / 100) + Pointed(Fraction(h)))
  {
    var whole := Grouped(h / 100);
    var (c, d) := (Digit(h / 10 % 10), Digit(h % 10));
    GroupedRead(h / 100);
    PlainForm(front + whole, c, d);
    TwoDecimals(h);
    Regroup(front, whole, ".", [c, d]);
    Regroup(front, whole, Pointed(Fraction(h)), []);
  }

  lemma TwoDecimals(h: nat)
    ensures h % 100 == 10 * (h / 10 % 10) + h % 10
    ensures h % 100 == 0 <==> h / 10 % 10 == 0 && h % 10 == 0
  {
  }

  lemma NoLetters(s: string)
    requires forall i | 0 <= i < |s| :: IsDigit(s[i]) || s[i] == '.'
    ensures 'e' !in s
  {
  }

  lemma DigitsAreNot(s: string, c: char)
    requires AllDigits(s) && !IsDigit(c)
    ensures c !in s
  {
  }

  lemma PointSplits(whole: string, fraction: string)
    requires '.' !in whole
    ensures Before(whole + Pointed(fraction), '.') == whole && After(whole + Pointed(fraction), '.') == fraction
  {
    Partitioned(whole, '.', fraction);
    if fraction == [] {
      assert whole + Pointed([]) == whole;
    } else {
      assert whole + ['.'] + fraction == whole + Pointed(fraction);
    }
  }

  lemma ReadsParts(s: string, whole: string, fraction: string)
    requires whole != [] && AllDigits(whole + fraction)
    requires Before(s, '.') == whole && After(s, '.') == fraction
    ensures ReadPlain(s) == Read(DigitsValue(whole + fraction), |fraction|)
  {
  }

  lemma ReadsPointed(whole: string, fraction: string)
    requires whole != [] && AllDigits(whole) && AllDigits(fraction)
    ensures ReadPlain(whole + Pointed(fraction)) == Read(DigitsValue(whole + fraction), |fraction|)
    ensures 'e' !in whole + Pointed(fraction)
  {
    DigitsAreNot(whole, '.');
    PointSplits(whole, fraction);
    ReadsParts(whole + Pointed(fraction), whole, fraction);
    NoLetters(whole + Pointed(fraction));
  }

  lemma ReadsUnscaled(front: string)
    requires 'e' !in front
    ensures ReadMagnitude(front) == ReadPlain(front)
  {
    Partitioned(front, 'e', []);
  }

  lemma ReadsScaled(front: string, exponent: string)
    requires 'e' !in front && exponent != [] && AllDigits(exponent) && ReadPlain(front).Read?
    ensures ReadMagnitude(front + "e-" + exponent)
         == Read(ReadPlain(front).n, ReadPlain(front).s + DigitsValue(exponent))
  {
    Partitioned(front, 'e', "-" + exponent);
    assert front + "e-" + exponent == front + "e" + ("-" + exponent);
    assert ("-" + exponent)[1..] == exponent;
    assert (front + "e-" + exponent)[|front|] == 'e';
  }

  function Negated(m: int, r: Reading): Reading {
    if m < 0 && r.Read? then Read(-r.n, r.s) else r
  }

  lemma ReadsSigned(m: int, s: string)
    requires s != [] && s[0] != '-'
    ensures DropCommas(Signed(m, s)) == Signed(m, DropCommas(s))
    ensures ReadNumber(Signed(m, s)) == Negated(m, ReadMagnitude(s))
  {
    DropCommasAppend("-", s);
    NoCommas("-");
    assert ("-" + s)[1..] == s;
  }

  // --- Reading back a number that is not tiny ---------------------------------------------------

  lemma FractionValue(h: nat)
    ensures
      var f := Fraction(h);
      AllDigits(f) && |f| <= 2 && DigitsValue(f) * 100 == h % 100 * Pow10(|f|)
      && (f != [] ==> DigitsValue(f) % 10 != 0)
  {
    var (c, d) := (Digit(h / 10 % 10), Digit(h % 10));
    TwoDecimals(h);
    assert Pow10(1) == 10 && Pow10(2) == 10 * Pow10(1);
    assert [c][..0] == [] && [c, d][..1] == [c];
    assert DigitsValue([c]) == h / 10 % 10;
    assert DigitsValue([c, d]) == 10 * (h / 10 % 10) + h % 10;
  }

  lemma FractionDropsNoCommas(h: nat)
    ensures DropCommas(Grouped(h / 100) + Pointed(Fraction(h))) == Digits(h / 100) + Pointed(Fraction(h))
  {
    GroupedRead(h / 100);
    DropCommasAppend(Grouped(h / 100), Pointed(Fraction(h)));
    NoCommas(Pointed(Fraction(h)));
  }

  lemma Scale(h: nat, a: nat, b: nat, p: nat)
    requires h == 100 * a + h % 100 && b * 100 == h % 100 * p
    ensures 100 * (a * p + b) == h * p
  {
  }

  lemma TensKeepTheLastDigit(t: nat, b: nat)
    ensures (10 * t + b) % 10 == b % 10
  {
  }

  lemma LastDigit(a: nat, b: nat, k: nat)
    requires b % 10 != 0 && k > 0
    ensures (a * Pow10(k) + b) % 10 != 0
  {
    ScaleUp(a, Pow10(k - 1), 0, b);
    TensKeepTheLastDigit(a * Pow10(k - 1), b);
  }

  /** `h` hundredths, without the commas, read as `h` hundredths in lowest decimal terms. */
  lemma HundredthsRead(h: nat)
    ensures
      var r := ReadMagnitude(Digits(h / 100) + Pointed(Fraction(h)));
      r.Read? && r.s <= 2 && 100 * r.n == h * Pow10(r.s) && (r.s > 0 ==> r.n % 10 != 0)
  {
    var (whole, f) := (Digits(h / 100), Fraction(h));
    DigitsRead(h / 100);
    FractionValue(h);
    ReadsPointed(whole, f);
    ReadsUnscaled(whole + Pointed(f));
    DigitsValueAppend(whole, f);
    Scale(h, h / 100, DigitsValue(f), Pow10(|f|));
    if f != [] {
      LastDigit(h / 100, DigitsValue(f), |f|);
    }
  }

  lemma HalfEvenIsZero(n: nat, d: nat)
    requires d > 0 && (n == 0 || n >= d)
    ensures HalfEven(n, d) == 0 <==> n == 0
  {
    if n >= d {
      Division(n, d);
      assert n / d >= 1;
    }
  }

  lemma Positive(a: nat, p: nat)
    requires p > 0
    ensures a * p == 0 <==> a == 0
  {
  }

  lemma SignedRead(m: int, text: string)
    requires text != [] && text[0] != '-' && DropCommas(text) != [] && DropCommas(text)[0] != '-'
    ensures ReadNumber(DropCommas(Signed(m, text))) == Negated(m, ReadMagnitude(DropCommas(text)))
  {
    ReadsSigned(m, text);
    ReadsSigned(m, DropCommas(text));
  }

  lemma PlainSigned(m: int, h: nat)
    ensures Plain(Signed(m, TwoPlaces(h))) == Signed(m, Grouped(h / 100) + Pointed(Fraction(h)))
  {
    PlainTwoPlaces("", h);
    PlainTwoPlaces("-", h);
    assert "" + TwoPlaces(h) == TwoPlaces(h);
    assert "" + (Grouped(h / 100) + Pointed(Fraction(h))) == Grouped(h / 100) + Pointed(Fraction(h));
  }

  /** What is printed for hundredths, sign and all, is read as those hundredths. */
  lemma SignedHundredthsRead(m: int, h: nat)
    ensures ReadNumber(DropCommas(Plain(Signed(m, TwoPlaces(h)))))
         == Negated(m, ReadMagnitude(Digits(h / 100) + Pointed(Fraction(h))))
  {
    PlainSigned(m, h);
    GroupedRead(h / 100);
    DigitsRead(h / 100);
    FractionDropsNoCommas(h);
    SignedRead(m, Grouped(h / 100) + Pointed(Fraction(h)));
  }

  /** Any number that is not tiny reads back, its commas dropped, with at most two decimals, none
      trailing, as the nearest hundredths; and not as zero unless it is. */
  lemma NumberReadsBack(m: int, k: nat)
    requires !IsTiny(m, k)
    ensures
      var r := ReadNumber(DropCommas(FormatNumber(Number(m, k))));
      && r.Read? && r.s <= 2 && (r.s > 0 ==> Abs(r.n) % 10 != 0)
      && 100 * (if m < 0 then -r.n else r.n) == HalfEven(100 * Abs(m), Pow10(k)) * Pow10(r.s)
      && (r.n == 0 <==> m == 0)
  {
    var h := HalfEven(100 * Abs(m), Pow10(k));
    SignedHundredthsRead(m, h);
    HundredthsRead(h);
    HalfEvenIsZero(100 * Abs(m), Pow10(k));
    Positive(h, Pow10(ReadMagnitude(Digits(h / 100) + Pointed(Fraction(h))).s));
  }

  lemma Hundredfold(n: int, h: int, m: int, p: int, q: int)
    requires 100 * n == h * q
    ensures 100 * (n * p - m * q) == (h * p - 100 * m) * q
  {
    assert (h * q) * p == (h * p) * q;
    assert 100 * (n * p) == (100 * n) * p;
  }

  lemma HundredthsAreNear(n: int, h: nat, m: nat, p: nat, q: nat)
    requires 100 * n == h * q && 2 * Abs(100 * m - h * p) <= p
    ensures 200 * Abs(n * p - m * q) <= p * q
  {
    ScaledBound(2, h * p - 100 * m, p, q);
    Hundredfold(n, h, m, p, q);
  }

  /** The reading is off by half a hundredth at most. */
  predicate WithinHalfHundredth(r: Reading, m: int, k: nat) {
    r.Read? && 200 * Abs(r.n * Pow10(k) - m * Pow10(r.s)) <= Pow10(k) * Pow10(r.s)
  }

  lemma HundredthsWithin(r: Reading, m: int, k: nat, h: nat)
    requires r.Read? && 2 * Abs(100 * Abs(m) - h * Pow10(k)) <= Pow10(k)
    requires 100 * (if m < 0 then -r.n else r.n) == h * Pow10(r.s)
    ensures WithinHalfHundredth(r, m, k)
  {
    var n := if m < 0 then -r.n else r.n;
    HundredthsAreNear(n, h, Abs(m), Pow10(k), Pow10(r.s));
    SameDistance(n, Abs(m), r.n, m, Pow10(k), Pow10(r.s));
  }

  lemma NumberIsNear(m: int, k: nat)
    requires !IsTiny(m, k)
    ensures WithinHalfHundredth(ReadNumber(DropCommas(FormatNumber(Number(m, k)))), m, k)
  {
    NumberReadsBack(m, k);
    HalfEvenIsNearest(100 * Abs(m), Pow10(k));
    HundredthsWithin(ReadNumber(DropCommas(FormatNumber(Number(m, k)))), m, k, HalfEven(100 * Abs(m), Pow10(k)));
  }

  lemma SameDistance(n: int, m: int, n': int, m': int, p: nat, q: nat)
    requires (n' == n && m' == m) || (n' == -n && m' == -m)
    ensures Abs(n' * p - m' * q) == Abs(n * p - m * q)
  {
    if n' != n || m' != m {
      assert n' * p == -(n * p) && m' * q == -(m * q);
    }
  }

  // --- Reading back a tiny number ------------------------------------------------------------------

  lemma {:induction false} ZerosValue(z: nat)
    ensures AllDigits(Zeros(z)) && DigitsValue(Zeros(z)) == 0
  {
    if z > 0 {
      assert Zeros(z)[..z - 1] == Zeros(z - 1);
      ZerosValue(z - 1);
    }
  }

  lemma OneOrTwoDigits(a: char, b: char)
    requires IsDigit(a) && IsDigit(b)
    ensures AllDigits([a]) && DigitsValue([a]) == a as int - '0' as int
    ensures AllDigits([a, b]) && DigitsValue([a, b]) == 10 * (a as int - '0' as int) + (b as int - '0' as int)
  {
    assert DigitsValue([]) == 0 && [] + [a] == [a] && [a] + [b] == [a, b];
    DigitsValueLast([], a);
    DigitsValueLast([a], b);
  }

  lemma MantissaValue(d: nat)
    requires 10 <= d < 100
    ensures
      var s := Mantissa(d, "");
      AllDigits(s) && s != [] && (if d % 10 == 0 then |s| == 1 && DigitsValue(s) == d / 10 else |s| == 2 && DigitsValue(s) == d)
  {
    var (a, b) := (Digit(d / 10), Digit(d % 10));
    OneOrTwoDigits(a, b);
    assert [a] + "" + [b] == [a, b];
    assert d == 10 * (d / 10) + d % 10;
  }

  /** What the digits and the exponent say, in lowest decimal terms. */
  function Significant(d: nat, x: nat): Reading { if d % 10 == 0 then Read(d / 10, x) else Read(d, x + 1) }

  lemma ZerosAddNothing(zeros: string, f: string)
    requires AllDigits(zeros) && DigitsValue(zeros) == 0 && AllDigits(f)
    ensures AllDigits(zeros + f) && DigitsValue(zeros + f) == DigitsValue(f)
  {
    DigitsValueAppend(zeros, f);
  }

  lemma PointedHasNoComma(whole: string, fraction: string)
    requires AllDigits(whole) && AllDigits(fraction)
    ensures ',' !in whole + ("." + fraction)
  {
  }

  lemma LeadingZero(zero: string, f: string)
    requires AllDigits(zero) && zero != [] && DigitsValue(zero) == 0
    requires AllDigits(f) && f != []
    ensures ReadMagnitude(zero + ("." + f)) == Read(DigitsValue(f), |f|)
    ensures ',' !in zero + ("." + f)
  {
    ZerosAddNothing(zero, f);
    ReadsPointed(zero, f);
    assert Pointed(f) == "." + f;
    ReadsUnscaled(zero + Pointed(f));
    PointedHasNoComma(zero, f);
  }

  lemma FixedRead(zero: string, z: string, s: string)
    requires AllDigits(zero) && zero != [] && DigitsValue(zero) == 0
    requires AllDigits(z) && AllDigits(s) && s != [] && DigitsValue(z) == 0
    ensures ReadMagnitude(zero + "." + z + s) == Read(DigitsValue(s), |z| + |s|)
    ensures ',' !in zero + "." + z + s
  {
    DigitsValueAppend(z, s);
    LeadingZero(zero, z + s);
    Bracket(zero, ".", z, s);
  }

  lemma Bracket(a: string, b: string, c: string, d: string)
    ensures (a + b) + c + d == a + (b + (c + d))
  {
  }

  lemma ExponentDigits(x: nat)
    ensures
      var e := (if x < 10 then "0" else "") + Digits(x);
      e != [] && AllDigits(e) && DigitsValue(e) == x
  {
    DigitsRead(x);
    DigitsValueAppend(if x < 10 then "0" else "", Digits(x));
    assert "0"[..0] == [] && DigitsValue("0") == 0;
  }

  lemma ScientificRead(a: char, f: string, e: string)
    requires IsDigit(a) && AllDigits(f) && e != [] && AllDigits(e)
    ensures ReadMagnitude([a] + Pointed(f) + "e-" + e) == Read(DigitsValue([a] + f), |f| + DigitsValue(e))
    ensures ',' !in [a] + Pointed(f) + "e-" + e
  {
    ReadsPointed([a], f);
    ReadsScaled([a] + Pointed(f), e);
  }

  lemma MantissaForms(d: nat, f: string)
    requires 10 <= d < 100 && f == if d % 10 == 0 then [] else [Digit(d % 10)]
    ensures Mantissa(d, "") == [Digit(d / 10)] + f && Mantissa(d, ".") == [Digit(d / 10)] + Pointed(f)
  {
  }

  lemma ScientificValue(d: nat, x: nat, f: string)
    requires 10 <= d < 100 && f == if d % 10 == 0 then [] else [Digit(d % 10)]
    ensures AllDigits([Digit(d / 10)] + f)
    ensures Read(DigitsValue([Digit(d / 10)] + f), |f| + x) == Significant(d, x)
  {
    OneOrTwoDigits(Digit(d / 10), Digit(d % 10));
    assert [Digit(d / 10)] + [] == [Digit(d / 10)];
    assert [Digit(d / 10)] + [Digit(d % 10)] == [Digit(d / 10), Digit(d % 10)];
  }

  lemma ScientificForm(d: nat, x: nat, f: string, e: string)
    requires 10 <= d < 100 && x > 4 && Mantissa(d, ".") == [Digit(d / 10)] + Pointed(f)
    requires e == (if x < 10 then "0" else "") + Digits(x)
    ensures General(d, x) == [Digit(d / 10)] + Pointed(f) + "e-" + e
  {
    Regroup(Mantissa(d, ".") + "e-", if x < 10 then "0" else "", Digits(x), []);
  }

  lemma ScientificReads(d: nat, x: nat, f: string, e: string, t: string)
    requires 10 <= d < 100 && f == if d % 10 == 0 then [] else [Digit(d % 10)]
    requires e != [] && AllDigits(e) && DigitsValue(e) == x
    requires t == [Digit(d / 10)] + Pointed(f) + "e-" + e
    ensures ReadMagnitude(t) == Significant(d, x) && ',' !in t && t != [] && t[0] != '-'
  {
    ScientificRead(Digit(d / 10), f, e);
    ScientificValue(d, x, f);
  }

  lemma ScientificGeneral(d: nat, x: nat)
    requires 10 <= d < 100 && x > 4
    ensures ReadMagnitude(General(d, x)) == Significant(d, x) && ',' !in General(d, x)
    ensures General(d, x) != [] && General(d, x)[0] != '-'
  {
    var f := if d % 10 == 0 then [] else [Digit(d % 10)];
    var e := (if x < 10 then "0" else "") + Digits(x);
    MantissaForms(d, f);
    ExponentDigits(x);
    ScientificForm(d, x, f, e);
    ScientificReads(d, x, f, e, General(d, x));
  }

  lemma GeneralRead(d: nat, x: nat)
    requires 10 <= d < 100 && x > 0
    ensures ReadMagnitude(General(d, x)) == Significant(d, x) && ',' !in General(d, x)
    ensures General(d, x) != [] && General(d, x)[0] != '-'
  {
    if x <= 4 {
      MantissaValue(d);
      ZerosValue(x - 1);
      assert "0"[..0] == [] && DigitsValue("0") == 0;
      FixedRead("0", Zeros(x - 1), Mantissa(d, ""));
    } else {
      ScientificGeneral(d, x);
    }
  }

  /** The reading is off by a twentieth of the number `m` times ten to the power of `-k` at most. */
  predicate WithinTwentieth(r: Reading, m: int, k: nat) {
    r.Read? && 20 * Abs(r.n * Pow10(k) - m * Pow10(r.s)) <= Abs(m) * Pow10(r.s)
  }

  lemma OneDigitIsExact(m: nat, k: nat)
    ensures WithinTwentieth(Read(m * 10, k + 1), m, k)
  {
    assert (m * 10) * Pow10(k) == m * Pow10(k + 1);
  }

  lemma RoundedIsNear(m: nat, places: nat, s: nat, k: nat)
    requires Pow10(places + 1) <= m && k == s + places
    ensures WithinTwentieth(Read(HalfEven(m, Pow10(places)), s), m, k)
  {
    var p := Pow10(places);
    HalfEvenIsNearest(m, p);
    Pow10Add(s, places);
    RoundingScaled(HalfEven(m, p), m, p, Pow10(s));
  }

  lemma HundredIsTen(m: nat, x: nat, k: nat)
    requires WithinTwentieth(Read(100, x + 1), m, k)
    ensures WithinTwentieth(Read(10, x), m, k)
  {
    DownTen(10, 100, m, Pow10(k), Pow10(x), Pow10(x + 1));
  }

  lemma ManyDigitsAreNear(m: nat, k: nat, length: nat)
    requires m > 0 && length == |Digits(m)| && 1 < length <= k && Pow10(length - 1) <= m
    ensures
      var (d, x) := TwoSignificant(m, k);
      x >= 0 && WithinTwentieth(Read(d, x + 1), m, k)
  {
    var (d, s) := (HalfEven(m, Pow10(length - 2)), k - length + 2);
    RoundedIsNear(m, length - 2, s, k);
    if d == 100 {
      HundredIsTen(m, s - 1, k);
    }
  }

  /** Two significant digits are off by a twentieth of the number at most. */
  lemma TwoDigitsAreNear(m: nat, k: nat)
    requires m > 0 && 100 * m < Pow10(k)
    ensures
      var (d, x) := TwoSignificant(m, k);
      x > 1 && WithinTwentieth(Read(d, x + 1), m, k)
  {
    TinyFacts(m, k);
    DigitsBound(m);
    if |Digits(m)| == 1 {
      OneDigitIsExact(m, k);
    } else {
      ManyDigitsAreNear(m, k, |Digits(m)|);
    }
  }

  lemma Scaled(e: int, q: nat)
    ensures Abs(e * q) == Abs(e) * q
  {
  }

  lemma ScaledBound(c: nat, e: int, m: nat, q: nat)
    requires c * Abs(e) <= m
    ensures c * Abs(e * q) <= m * q
  {
    Scaled(e, q);
    assert c * (Abs(e) * q) == (c * Abs(e)) * q;
    AtMost(c * Abs(e), m, q);
  }

  lemma Distribute(d: int, m: int, p: int, q: int)
    ensures d * (q * p) - m * q == (d * p - m) * q
  {
  }

  lemma RoundingScaled(d: nat, m: nat, p: nat, q: nat)
    requires 2 * Abs(m - d * p) <= p && 10 * p <= m
    ensures 20 * Abs(d * (q * p) - m * q) <= m * q
  {
    ScaledBound(20, d * p - m, m, q);
    Distribute(d, m, p, q);
  }

  lemma DownTen(n: nat, d: nat, m: nat, p: nat, s: nat, q: nat)
    requires d == 10 * n && q == 10 * s && 20 * Abs(d * p - m * q) <= m * q
    ensures 20 * Abs(n * p - m * s) <= m * s
  {
    assert d * p == 10 * (n * p) && m * q == 10 * (m * s);
  }

  lemma TinyText(m: int, k: nat)
    requires IsTiny(m, k)
    ensures
      var (d, x) := TwoSignificant(Abs(m), k);
      10 <= d < 100 && x > 1 && ReadNumber(DropCommas(FormatNumber(Number(m, k)))) == Negated(m, Significant(d, x))
  {
    var (d, x) := TwoSignificant(Abs(m), k);
    TinyFacts(Abs(m), k);
    GeneralRead(d, x);
    NoCommas(General(d, x));
    SignedRead(m, General(d, x));
  }

  lemma SignificantIsNear(d: nat, x: nat, m: nat, k: nat)
    requires 10 <= d < 100 && WithinTwentieth(Read(d, x + 1), m, k)
    ensures
      var r := Significant(d, x);
      0 < r.n < 100 && r.n % 10 != 0 && WithinTwentieth(r, m, k)
  {
    if d % 10 == 0 {
      DownTen(d / 10, d, m, Pow10(k), Pow10(x), Pow10(x + 1));
    }
  }

  lemma SignedWithin(r: Reading, m: int, k: nat)
    requires WithinTwentieth(r, Abs(m), k)
    ensures WithinTwentieth(Negated(m, r), m, k)
  {
    SameDistance(r.n, Abs(m), Negated(m, r).n, m, Pow10(k), Pow10(r.s));
  }

  /** A tiny number reads back, and not as zero: with two significant digits at most, none trailing,
      off by a twentieth of itself at most, its sign kept. */
  lemma TinyReadsBack(m: int, k: nat)
    requires IsTiny(m, k)
    ensures
      var r := ReadNumber(DropCommas(FormatNumber(Number(m, k))));
      && r.Read? && 0 < Abs(r.n) < 100 && Abs(r.n) % 10 != 0 && (r.n < 0 <==> m < 0)
      && WithinTwentieth(r, m, k)
  {
    var (d, x) := TwoSignificant(Abs(m), k);
    TinyText(m, k);
    TwoDigitsAreNear(Abs(m), k);
    SignificantIsNear(d, x, Abs(m), k);
    SignedWithin(Significant(d, x), m, k);
  }

  /** No number but zero is printed as zero. */
  lemma OnlyZeroReadsAsZero(m: int, k: nat)
    ensures
      var r := ReadNumber(DropCommas(FormatNumber(Number(m, k))));
      r.Read? && (r.n == 0 <==> m == 0)
  {
    if IsTiny(m, k) {
      TinyReadsBack(m, k);
    } else {
      NumberReadsBack(m, k);
    }
  }
}
