/** Fixed-point decimals as the results log prints them: `{:.6}` and `{:.1}` on numbers
    taken as reals, and the reading of such a number back. */
module Decimals {
  import opened Text

  // ----- rounding -----

  /** Round to the nearest integer, ties to the even one. */
  function RoundHalfEven(y: real): int {
    var n := y.Floor;
    var d := y - n as real;
    if d < 0.5 then n else if d > 0.5 then n + 1 else if n % 2 == 0 then n else n + 1
  }

  function Pow10(k: nat): (p: nat)
    ensures p >= 1
  {
    if k == 0 then 1 else 10 * Pow10(k - 1)
  }

  /** The count of `10^-k` units closest to `x`. */
  function Units(x: real, k: nat): int {
    ScaledUp(x, Pow10(k))
  }

  function OfUnits(n: int, k: nat): real {
    ScaledDown(n, Pow10(k))
  }

  function ScaledUp(x: real, p: nat): int {
    RoundHalfEven(x * p as real)
  }

  function ScaledDown(n: int, p: nat): real
    requires p >= 1
  {
    n as real / p as real
  }

  /** `x` rounded to `k` decimals. */
  function Rounded(x: real, k: nat): real {
    OfUnits(Units(x, k), k)
  }

  lemma RoundMonotone(a: real, b: real)
    requires a <= b
    ensures RoundHalfEven(a) <= RoundHalfEven(b)
  {
  }

  function Distance(a: real, b: real): real {
    if a < b then b - a else a - b
  }

  /** No integer is nearer, and of two equally near ones the even one is taken. */
  lemma RoundIsNearest(y: real, n: int)
    ensures
      var r := RoundHalfEven(y);
      && Distance(y, r as real) <= Distance(y, n as real)
      && (Distance(y, r as real) == Distance(y, n as real) && r != n ==> r % 2 == 0)
  {
    var f := y.Floor;
    assert n <= f || n >= f + 1;
  }

  lemma RoundInteger(y: real, n: int)
    requires y == n as real
    ensures RoundHalfEven(y) == n
  {
  }

  lemma RoundNegated(y: real)
    ensures RoundHalfEven(-y) == -RoundHalfEven(y)
  {
    var n := y.Floor;
    var d := y - n as real;
    if d == 0.0 {
      assert y == n as real && -y == (-n) as real;
    } else {
      assert (-y).Floor == -n - 1;
    }
  }

  lemma ScaledMonotone(a: real, b: real, p: nat)
    requires a <= b
    ensures ScaledUp(a, p) <= ScaledUp(b, p)
  {
    hide RoundHalfEven;
    assert a * p as real <= b * p as real;
    RoundMonotone(a * p as real, b * p as real);
  }

  lemma UnitsMonotone(a: real, b: real, k: nat)
    requires a <= b
    ensures Units(a, k) <= Units(b, k)
  {
    ScaledMonotone(a, b, Pow10(k));
  }

  lemma ScaledExact(x: real, n: int, p: nat)
    requires x * p as real == n as real
    ensures ScaledUp(x, p) == n
  {
    RoundInteger(x * p as real, n);
  }

  lemma ScaledBack(n: int, p: nat)
    requires p >= 1
    ensures ScaledUp(ScaledDown(n, p), p) == n
  {
    ScaledExact(ScaledDown(n, p), n, p);
  }

  lemma UnitsOfUnits(n: int, k: nat)
    ensures Units(OfUnits(n, k), k) == n
  {
    ScaledBack(n, Pow10(k));
  }

  /** Rounding twice changes nothing more. */
  lemma RoundedTwice(x: real, k: nat)
    ensures Rounded(Rounded(x, k), k) == Rounded(x, k)
  {
    UnitsOfUnits(Units(x, k), k);
  }

  lemma OfUnitsOrder(a: int, b: int, k: nat)
    ensures a < b <==> OfUnits(a, k) < OfUnits(b, k)
    ensures a == b <==> OfUnits(a, k) == OfUnits(b, k)
  {
    ScaledOrder(a, b, Pow10(k));
  }

  lemma ScaledOrder(a: int, b: int, p: nat)
    requires p >= 1
    ensures a < b <==> ScaledDown(a, p) < ScaledDown(b, p)
    ensures a == b <==> ScaledDown(a, p) == ScaledDown(b, p)
  {
    assert (a as real / p as real) * p as real == a as real && (b as real / p as real) * p as real == b as real;
  }

  lemma ScaledDistance(x: real, n: int, p: nat)
    requires p >= 1
    ensures Distance(x, ScaledDown(n, p)) * p as real == Distance(x * p as real, n as real)
  {
    var q, d := p as real, ScaledDown(n, p);
    assert d * q == n as real;
    assert (x - d) * q == x * q - d * q && (d - x) * q == d * q - x * q;
    if x < d {
      LessScaled(x, d, q);
    } else {
      LessScaled(d, x, q);
    }
  }

  lemma LessScaled(a: real, b: real, q: real)
    requires q > 0.0
    ensures a < b ==> a * q < b * q
    ensures a <= b ==> a * q <= b * q
  {
  }

  lemma ScaledIsNearest(x: real, n: int, p: nat)
    requires p >= 1
    ensures Distance(x, ScaledDown(ScaledUp(x, p), p)) <= Distance(x, ScaledDown(n, p))
  {
    hide RoundHalfEven, ScaledDown, Distance;
    var y, r, q := x * p as real, ScaledUp(x, p), p as real;
    assert r == RoundHalfEven(y);
    RoundIsNearest(y, n);
    ScaledDistance(x, r, p);
    ScaledDistance(x, n, p);
    var near, far := Distance(x, ScaledDown(r, p)), Distance(x, ScaledDown(n, p));
    assert near * q == Distance(y, r as real) && far * q == Distance(y, n as real);
    LessScaled(far, near, q);
  }

  /** No number with `k` decimals is nearer to `x` than `x` rounded to `k` decimals. */
  lemma RoundedIsNearest(x: real, k: nat, n: int)
    ensures Distance(x, Rounded(x, k)) <= Distance(x, OfUnits(n, k))
  {
    ScaledIsNearest(x, n, Pow10(k));
  }

  // ----- digits -----

  predicate IsDigit(c: char) {
    '0' <= c <= '9'
  }

  predicate AllDigits(s: string) {
    forall i :: 0 <= i < |s| ==> IsDigit(s[i])
  }

  function Digit(n: nat): (c: char)
    requires n < 10
    ensures IsDigit(c)
  {
    ('0' as int + n) as char
  }

  function DigitsValue(s: string): nat
    requires AllDigits(s)
  {
    if s == "" then 0 else 10 * DigitsValue(s[..|s| - 1]) + (s[|s| - 1] as int - '0' as int)
  }

  /** Exactly `k` digits, with leading zeros. */
  function Padded(n: nat, k: nat): (s: string)
    ensures |s| == k && AllDigits(s)
  {
    if k == 0 then "" else Padded(n / 10, k - 1) + [Digit(n % 10)]
  }

  lemma {:induction false} DecimalDigits(n: nat)
    ensures AllDigits(Decimal(n)) && DigitsValue(Decimal(n)) == n
  {
    if n >= 10 {
      DecimalDigits(n / 10);
      var s := Decimal(n);
      assert s[..|s| - 1] == Decimal(n / 10);
    } else {
      var s := Decimal(n);
      assert s[..|s| - 1] == "";
    }
  }

  lemma {:induction false} PaddedDigits(n: nat, k: nat)
    requires n < Pow10(k)
    ensures DigitsValue(Padded(n, k)) == n
  {
    if k > 0 {
      PaddedDigits(n / 10, k - 1);
      var s := Padded(n, k);
      assert s[..|s| - 1] == Padded(n / 10, k - 1);
    }
  }

  // ----- printing and reading -----

  function Magnitude(x: real, k: nat): nat {
    var a := if x < 0.0 then -x else x;
    UnitsNonNegative(a, k);
    Units(a, k)
  }

  function QuotientAndRest(m: nat, p: nat): (r: (nat, nat))
    requires p >= 1
    ensures m == r.0 * p + r.1 && r.1 < p
  {
    (m / p, m % p)
  }

  function FixedPoint(m: nat, k: nat): string {
    var (whole, frac) := QuotientAndRest(m, Pow10(k));
    Decimal(whole) + "." + Padded(frac, k)
  }

  /** `{:.k}`: a sign for every negative number, even one that rounds to zero. */
  function Format(x: real, k: nat): string {
    (if x < 0.0 then "-" else "") + FixedPoint(Magnitude(x, k), k)
  }

  lemma UnitsNonNegative(x: real, k: nat)
    requires x >= 0.0
    ensures Units(x, k) >= 0
  {
    UnitsMonotone(0.0, x, k);
    ScaledZero(Pow10(k));
  }

  lemma ScaledZero(p: nat)
    ensures ScaledUp(0.0, p) == 0
  {
    RoundInteger(0.0, 0);
  }

  function ParseUnsigned(body: string): Option<real> {
    var dot := IndexOf(body, '.', 0);
    var whole, frac := body[..dot], if dot < |body| then body[dot + 1..] else "";
    if !AllDigits(whole) || !AllDigits(frac) || (whole == "" && frac == "") then None
    else Some(DigitsValue(whole) as real + OfUnits(DigitsValue(frac), |frac|))
  }

  /** A number without exponent: an optional sign, and digits with at most one point among them. */
  function Parse(s: string): Option<real> {
    if "-" <= s then
      match ParseUnsigned(s[1..])
      case Some(size) => Some(-size)
      case None => None
    else ParseUnsigned(if "+" <= s then s[1..] else s)
  }

  /** Digits on either side of the point may be missing, but not on both. */
  lemma PointedParses(whole: string, frac: string)
    requires AllDigits(whole) && AllDigits(frac)
    ensures ParseUnsigned(whole + ['.'] + frac)
         == if whole == "" && frac == "" then None
            else Some(DigitsValue(whole) as real + OfUnits(DigitsValue(frac), |frac|))
  {
    hide DigitsValue, OfUnits, IndexOf, AllDigits, ParseUnsigned;
    DigitsHaveNoPoint(whole);
    IndexOfIs(whole, '.', frac);
    CutAtPoint(whole, frac);
    PartsParse(whole + ['.'] + frac, whole, frac);
  }

  lemma DigitsHaveNoPoint(s: string)
    requires AllDigits(s)
    ensures '.' !in s
  {
  }

  lemma CutAtPoint(whole: string, frac: string)
    ensures (whole + ['.'] + frac)[..|whole|] == whole && (whole + ['.'] + frac)[|whole| + 1..] == frac
  {
  }

  lemma PartsParse(body: string, whole: string, frac: string)
    requires AllDigits(whole) && AllDigits(frac) && IndexOf(body, '.', 0) == |whole| < |body|
    requires body[..|whole|] == whole && body[|whole| + 1..] == frac
    ensures ParseUnsigned(body)
         == if whole == "" && frac == "" then None
            else Some(DigitsValue(whole) as real + OfUnits(DigitsValue(frac), |frac|))
  {
    hide DigitsValue, OfUnits, IndexOf, AllDigits;
  }

  /** Without a point the number is whole. */
  lemma WholeParses(whole: string)
    requires AllDigits(whole)
    ensures ParseUnsigned(whole) == if whole == "" then None else Some(DigitsValue(whole) as real)
  {
    hide DigitsValue;
    assert IndexOf(whole, '.', 0) == |whole| && whole[..|whole|] == whole;
    NoUnits();
  }

  lemma NoUnits()
    ensures DigitsValue("") == 0 && OfUnits(0, 0) == 0.0
  {
  }

  /** Nothing but digits, a point and a leading sign makes a number. */
  lemma OnlyNumbersParse(s: string, i: nat)
    requires Parse(s).Some? && i < |s|
    ensures IsDigit(s[i]) || s[i] == '.' || (i == 0 && (s[i] == '-' || s[i] == '+'))
  {
    hide ParseUnsigned, IsDigit;
    if "-" <= s || "+" <= s {
      if i > 0 {
        UnsignedIsPlain(s[1..], i - 1);
      }
    } else {
      UnsignedIsPlain(s, i);
    }
  }

  lemma UnsignedIsPlain(body: string, k: nat)
    requires ParseUnsigned(body).Some? && k < |body|
    ensures IsDigit(body[k]) || body[k] == '.'
  {
    hide DigitsValue, OfUnits;
    var dot := IndexOf(body, '.', 0);
    if k < dot {
      assert body[..dot][k] == body[k];
    } else if k > dot {
      assert body[dot + 1..][k - dot - 1] == body[k];
    }
  }

  lemma ParseFixedPoint(m: nat, k: nat)
    requires k > 0
    ensures ParseUnsigned(FixedPoint(m, k)) == Some(OfUnits(m, k))
  {
    hide DigitsValue, ScaledDown, Decimal, Padded, QuotientAndRest;
    var (q, r) := QuotientAndRest(m, Pow10(k));
    var whole, frac := Decimal(q), Padded(r, k);
    DecimalDigits(q);
    PaddedDigits(r, k);
    JoinScaled(m, q, r, Pow10(k));
    var body := FixedPoint(m, k);
    PointedParses(whole, frac);
    assert body == whole + ['.'] + frac;
  }

  /** Reading a printed number gives the rounded number. */
  lemma ParseFormat(x: real, k: nat)
    requires k > 0
    ensures Parse(Format(x, k)) == Some(Rounded(x, k))
  {
    hide ParseUnsigned, Units, DigitsValue, OfUnits, FixedPoint;
    var f := FixedPoint(Magnitude(x, k), k);
    FixedPointHasNoSign(Magnitude(x, k), k);
    ParseFixedPoint(Magnitude(x, k), k);
    SignedUnits(x, k);
    FixedPointIsPlain(Magnitude(x, k), k);
    assert ("-" + f)[1..] == f && "" + f == f;
  }

  lemma JoinScaled(m: nat, q: nat, r: nat, p: nat)
    requires p >= 1 && m == q * p + r
    ensures q as real + ScaledDown(r, p) == ScaledDown(m, p)
  {
    assert m as real == q as real * p as real + r as real;
    assert (q as real * p as real) / p as real == q as real;
    DivideSum(q as real * p as real, r as real, p as real);
  }

  lemma DivideSum(a: real, b: real, p: real)
    requires p > 0.0
    ensures (a + b) / p == a / p + b / p
  {
  }

  lemma ScaledNegated(x: real, n: int, p: nat)
    requires p >= 1
    ensures ScaledUp(-x, p) == -ScaledUp(x, p)
    ensures ScaledDown(-n, p) == -ScaledDown(n, p)
  {
    hide RoundHalfEven;
    assert -x * p as real == -(x * p as real);
    RoundNegated(x * p as real);
  }

  lemma SignedUnits(x: real, k: nat)
    ensures Rounded(x, k) == if x < 0.0 then -OfUnits(Magnitude(x, k), k) else OfUnits(Magnitude(x, k), k)
  {
    hide ScaledUp, ScaledDown;
    if x < 0.0 {
      ScaledNegated(x, Magnitude(x, k), Pow10(k));
    }
  }

  lemma FixedPointHasNoSign(m: nat, k: nat)
    ensures !("-" <= FixedPoint(m, k)) && !("+" <= FixedPoint(m, k))
  {
    hide QuotientAndRest, Padded;
    var whole := Decimal(QuotientAndRest(m, Pow10(k)).0);
    assert FixedPoint(m, k)[0] == whole[0];
    assert "-"[0] == '-' && "+"[0] == '+';
  }

  lemma FixedPointIsPlain(m: nat, k: nat)
    ensures var f := FixedPoint(m, k); '\t' !in f && '\n' !in f && f != "" && f[0] != '-'
  {
    hide QuotientAndRest, Padded;
    var (q, r) := QuotientAndRest(m, Pow10(k));
    var whole, frac := Decimal(q), Padded(r, k);
    assert forall i :: 0 <= i < |frac| ==> IsDigit(frac[i]);
    assert FixedPoint(m, k)[0] == whole[0];
  }

  /** Nothing in a printed number separates fields or lines. */
  lemma FormatIsPlain(x: real, k: nat)
    ensures '\t' !in Format(x, k) && '\n' !in Format(x, k)
  {
    hide FixedPoint, Magnitude;
    FixedPointIsPlain(Magnitude(x, k), k);
  }

  lemma FewerTimes(a: nat, b: nat, p: nat)
    requires a < b
    ensures a * p + p <= b * p
  {
    var n: nat := b - a - 1;
    assert b * p == (a + 1 + n) * p == a * p + p + n * p;
  }

  lemma QuotientIs(q: nat, r: nat, p: nat)
    requires r < p
    ensures QuotientAndRest(q * p + r, p) == (q, r)
  {
    hide QuotientAndRest;
    var d := QuotientAndRest(q * p + r, p);
    if d.0 < q {
      FewerTimes(d.0, q, p);
    } else if q < d.0 {
      FewerTimes(q, d.0, p);
    }
  }

  lemma PaddedStep(n: nat, digit: nat, k: nat)
    requires digit < 10
    ensures Padded(10 * n + digit, k + 1) == Padded(n, k) + [Digit(digit)]
  {
  }

  /** Numbers as they are printed. */
  lemma FormatExamples()
    ensures Format(0.5, 6) == "0.500000" && Format(44.0, 1) == "44.0" && Format(-1.26, 1) == "-1.3"
  {
    hide Decimal, Padded, QuotientAndRest;
    assert Pow10(1) == 10 && Pow10(6) == 1000000 by { PowersOfTen(); }
    assert Magnitude(0.5, 6) == 500000 && Magnitude(44.0, 1) == 440 && Magnitude(-1.26, 1) == 13;
    QuotientIs(0, 500000, 1000000);
    QuotientIs(44, 0, 10);
    QuotientIs(1, 3, 10);
    DigitExamples();
  }

  lemma PowersOfTen()
    ensures Pow10(1) == 10 && Pow10(6) == 1000000
  {
    assert Pow10(1) == 10 && Pow10(2) == 100 && Pow10(3) == 1000;
    assert Pow10(4) == 10000 && Pow10(5) == 100000;
  }

  lemma DigitExamples()
    ensures Decimal(0) == "0" && Decimal(1) == "1" && Decimal(44) == "44"
    ensures Padded(500000, 6) == "500000" && Padded(0, 1) == "0" && Padded(3, 1) == "3"
  {
    hide Padded;
    assert Padded(0, 0) == "" && Padded(5, 0) == "" by { NoDigits(); }
    PaddedStep(0, 5, 0);
    PaddedStep(0, 0, 0);
    PaddedStep(0, 3, 0);
    PaddedStep(5, 0, 1);
    PaddedStep(50, 0, 2);
    PaddedStep(500, 0, 3);
    PaddedStep(5000, 0, 4);
    PaddedStep(50000, 0, 5);
  }

  lemma NoDigits()
    ensures forall n: nat :: Padded(n, 0) == ""
  {
  }
}
