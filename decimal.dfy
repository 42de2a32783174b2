/**
 * Decimal text: the digit strings produced by `Number.prototype.toFixed` and by
 * `Number.prototype.toString` on two-decimal values, and a parser that gives the
 * text back its exact value.
 */
module Decimal {
  import opened Wrappers

  function Pow10(k: nat): (r: nat)
    ensures r >= 1
  {
    if k == 0 then 1 else 10 * Pow10(k - 1)
  }

  predicate IsDigit(c: char) { '0' <= c <= '9' }

  predicate AllDigits(s: string) { forall i :: 0 <= i < |s| ==> IsDigit(s[i]) }

  function DigitChar(d: nat): (c: char)
    requires d < 10
    ensures IsDigit(c) && c as int - '0' as int == d
  {
    ('0' as int + d) as char
  }

  function DigitValue(c: char): nat
    requires IsDigit(c)
  {
    c as int - '0' as int
  }

  /** The value of a digit string, most significant digit first. */
  function DigitsToNat(s: string): nat
    requires AllDigits(s)
  {
    if s == [] then 0 else DigitsToNat(s[..|s| - 1]) * 10 + DigitValue(s[|s| - 1])
  }

  /** Shortest decimal digits of n, "0" for zero. */
  function NatToDigits(n: nat): string
  {
    if n < 10 then [DigitChar(n)] else NatToDigits(n / 10) + [DigitChar(n % 10)]
  }

  /** Exactly w digits of n, with leading zeros (n is taken modulo 10^w). */
  function PadDigits(n: nat, w: nat): string
  {
    if w == 0 then [] else PadDigits(n / 10, w - 1) + [DigitChar(n % 10)]
  }

  lemma {:induction false} NatToDigitsCorrect(n: nat)
    ensures |NatToDigits(n)| >= 1 && AllDigits(NatToDigits(n))
    ensures DigitsToNat(NatToDigits(n)) == n
    ensures |NatToDigits(n)| > 1 ==> NatToDigits(n)[0] != '0'
  {
    var s := NatToDigits(n);
    if n >= 10 {
      NatToDigitsCorrect(n / 10);
      assert s[..|s| - 1] == NatToDigits(n / 10);
    }
  }

  lemma {:induction false} PadDigitsCorrect(n: nat, w: nat)
    requires n < Pow10(w)
    ensures |PadDigits(n, w)| == w && AllDigits(PadDigits(n, w))
    ensures DigitsToNat(PadDigits(n, w)) == n
  {
    var s := PadDigits(n, w);
    if w > 0 {
      PadDigitsCorrect(n / 10, w - 1);
      assert s[..|s| - 1] == PadDigits(n / 10, w - 1);
    }
  }

  /**
   * The integer nearest to a / b, the larger one on a tie: the choice
   * `toFixed` makes for the magnitude of its argument.
   */
  function RoundHalfUp(a: nat, b: nat): nat
    requires b > 0
  {
    (2 * a + b) / (2 * b)
  }

  lemma RoundHalfUpBounds(a: nat, b: nat)
    requires b > 0
    ensures 2 * a - b < 2 * b * RoundHalfUp(a, b) <= 2 * a + b
  {
    var q, rem := (2 * a + b) / (2 * b), (2 * a + b) % (2 * b);
    assert 2 * a + b == 2 * b * q + rem;
  }

  /** No integer is closer to a / b than RoundHalfUp(a, b); of two equally close, it is the larger. */
  lemma RoundHalfUpIsNearest(a: nat, b: nat, k: int)
    requires b > 0
    ensures NoCloser(RoundHalfUp(a, b), a, b, k)
  {
    var r := RoundHalfUp(a, b);
    RoundHalfUpBounds(a, b);
    var rb, kb := r * b, k * b;
    assert 2 * b * r == 2 * rb;
    if k < r {
      MulStep(k, r, b);
      assert kb <= rb - b;
    } else if k > r {
      MulStep(r, k, b);
      assert kb >= rb + b;
    }
  }

  lemma MulLeq(x: int, y: int, b: nat)
    requires x <= y
    ensures x * b <= y * b
  {
  }

  /** Between two different multiples of b lies at least b. */
  lemma MulStep(x: int, y: int, b: nat)
    requires x < y
    ensures x * b + b <= y * b
  {
    MulLeq(x + 1, y, b);
    assert (x + 1) * b == x * b + b;
  }

  /** Scaling numerator and denominator alike does not change the rounding. */
  lemma RoundHalfUpScale(a: nat, b: nat, k: nat)
    requires b > 0 && k > 0
    ensures RoundHalfUp(a * k, b * k) == RoundHalfUp(a, b)
  {
    var x, y := 2 * a + b, 2 * b;
    var q, rem := x / y, x % y;
    DivisionOfNat(x, y);
    ScaledDivision(x, y, q, rem, k);
    ScaledRoundingTerms(a, b, k);
    DivUnique(x * k, y * k, q, rem * k);
  }

  lemma ScaledDivision(x: int, y: nat, q: int, rem: nat, k: nat)
    requires k > 0 && x == q * y + rem && rem < y
    ensures x * k == (y * k) * q + rem * k && rem * k < y * k
  {
    MulLeq(rem + 1, y, k);
  }

  lemma ScaledRoundingTerms(a: nat, b: nat, k: nat)
    ensures 2 * (a * k) + b * k == (2 * a + b) * k && 2 * (b * k) == (2 * b) * k
  {
  }

  lemma DivUnique(x: int, y: int, q: int, rem: int)
    requires y > 0 && x == y * q + rem && 0 <= rem < y
    ensures x / y == q
  {
    var q2, r2 := x / y, x % y;
    assert x == y * q2 + r2 && 0 <= r2 < y;
    if q2 > q {
      MulLeq(q + 1, q2, y);
      assert false;
    } else if q2 < q {
      MulLeq(q2 + 1, q, y);
      assert false;
    }
  }

  /** A rounding of a / b to an integer stays inside every integer interval holding a / b. */
  lemma RoundHalfUpWithin(a: nat, b: nat, lo: nat, hi: nat)
    requires b > 0 && lo * b <= a <= hi * b
    ensures lo <= RoundHalfUp(a, b) <= hi
  {
    var r := RoundHalfUp(a, b);
    RoundHalfUpBounds(a, b);
    assert 2 * b * r == 2 * (r * b);
    if r > hi {
      MulStep(hi, r, b);
      assert false;
    }
    if r < lo {
      MulStep(r, lo, b);
      assert false;
    }
  }

  function Abs(x: int): nat { if x < 0 then -x else x }

  /**
   * `x.toFixed(f)` for the exact rational x = num / den: a "-" when x < 0, then the
   * magnitude rounded to f decimals, written with at least one integer digit and,
   * when f > 0, a point and exactly f fraction digits.
   */
  function ToFixed(num: int, den: nat, f: nat): string
    requires den > 0
  {
    FixedText(num < 0, RoundHalfUp(Abs(num) * Pow10(f), den), f)
  }

  /** The text of (-1 if neg) * m / 10^f with exactly f fraction digits. */
  function FixedText(neg: bool, m: nat, f: nat): string
  {
    SignText(neg)
      + NatToDigits(Whole(m, f))
      + (if f == 0 then "" else "." + PadDigits(Fraction(m, f), f))
  }

  /** With two decimals and a magnitude below 10, the text is one digit, a point and two digits. */
  lemma TwoDecimalText(neg: bool, m: nat)
    requires m < 1000
    ensures FixedText(neg, m, 2)
            == SignText(neg) + [DigitChar(m / 100), '.', DigitChar(m / 10 % 10), DigitChar(m % 10)]
  {
    assert Pow10(2) == 100;
    var fr := Fraction(m, 2);
    assert fr == m % 100;
    HundredsDigits(m);
    assert Whole(m, 2) == m / 100 < 10;
    assert NatToDigits(Whole(m, 2)) == [DigitChar(m / 100)];
    assert PadDigits(fr, 2) == PadDigits(fr / 10, 1) + [DigitChar(fr % 10)];
    assert PadDigits(fr / 10, 1) == [DigitChar(fr / 10 % 10)];
  }

  lemma HundredsDigits(m: nat)
    ensures m % 100 / 10 % 10 == m / 10 % 10 && m % 100 % 10 == m % 10
  {
  }

  /** `x.toFixed(2)` for |x| < 9.995: one integer digit, a point and two fraction digits. */
  lemma ToFixedTwo(num: int, den: nat, m: nat)
    requires den > 0 && RoundHalfUp(Abs(num) * 100, den) == m < 1000
    ensures ToFixed(num, den, 2)
            == SignText(num < 0) + [DigitChar(m / 100), '.', DigitChar(m / 10 % 10), DigitChar(m % 10)]
  {
    assert Pow10(2) == 100;
    TwoDecimalText(num < 0, m);
  }

  /** The integer and fraction parts of m / 10^f. */
  function Whole(m: nat, f: nat): nat
  {
    var p := Pow10(f);
    DivisionOfNat(m, p);
    m / p
  }

  lemma DivisionOfNat(m: nat, p: nat)
    requires p > 0
    ensures m / p >= 0 && m % p < p && (m / p) * p + m % p == m
  {
  }

  function Fraction(m: nat, f: nat): (r: nat)
    ensures r < Pow10(f) && Whole(m, f) * Pow10(f) + r == m
  {
    m % Pow10(f)
  }

  /**
   * `Number.prototype.toString` for the value c / 100: the shortest decimal,
   * with as few fraction digits as represent the value exactly.
   */
  function CentiToString(c: int): string
  {
    var a := Abs(c);
    if a % 100 == 0 then FixedText(c < 0, a / 100, 0)
    else if a % 10 == 0 then FixedText(c < 0, a / 10, 1)
    else FixedText(c < 0, a, 2)
  }

  /** The exact value a decimal text denotes: (-1 if neg) * digits / 10^scale. */
  datatype Dec = Dec(neg: bool, digits: nat, scale: nat)

  /** Position of the first c in s, or |s| when there is none. */
  function IndexOf(s: string, c: char): (i: nat)
    ensures i <= |s|
    ensures forall j :: 0 <= j < i ==> s[j] != c
    ensures i < |s| ==> s[i] == c
  {
    if s == [] then 0 else if s[0] == c then 0 else 1 + IndexOf(s[1..], c)
  }

  /** Digits, optionally followed by a point and more digits. */
  function ParseUnsigned(s: string): Option<(nat, nat)>
  {
    var p := IndexOf(s, '.');
    if p < |s| then ParseParts(s[..p], s[p + 1..], true) else ParseParts(s, [], false)
  }

  /** The value of whole.fraction at scale |fraction|, if both parts are well formed. */
  function ParseParts(whole: string, fraction: string, point: bool): Option<(nat, nat)>
  {
    if whole == [] || !AllDigits(whole) || !AllDigits(fraction) || (point && fraction == []) then None
    else Some((Shift(DigitsToNat(whole), |fraction|) + DigitsToNat(fraction), |fraction|))
  }

  /** n * 10^k: n with k zero digits appended. */
  function Shift(n: nat, k: nat): nat { n * Pow10(k) }

  /** The decimal texts toFixed and toString produce here: an optional "-", then ParseUnsigned. */
  function ParseDecimal(s: string): Option<Dec>
  {
    if |s| > 0 && s[0] == '-' then Signed(true, ParseUnsigned(s[1..])) else Signed(false, ParseUnsigned(s))
  }

  function Signed(neg: bool, p: Option<(nat, nat)>): Option<Dec>
  {
    match p
    case None => None
    case Some((digits, scale)) => Some(Dec(neg, digits, scale))
  }

  function SignText(neg: bool): string { if neg then "-" else "" }

  lemma {:induction false} IndexOfPrefix(a: string, b: string, c: char)
    requires forall j :: 0 <= j < |a| ==> a[j] != c
    ensures IndexOf(a + b, c) == |a| + IndexOf(b, c)
  {
    if a == [] {
      assert a + b == b;
    } else {
      assert (a + b)[0] == a[0];
      assert (a + b)[1..] == a[1..] + b;
      IndexOfPrefix(a[1..], b, c);
    }
  }

  lemma {:induction false} DigitsHaveNoPoint(w: string)
    requires AllDigits(w)
    ensures IndexOf(w, '.') == |w|
  {
    if w != [] {
      assert IsDigit(w[0]);
      DigitsHaveNoPoint(w[1..]);
    }
  }

  lemma ParseWhole(w: string)
    requires |w| >= 1 && AllDigits(w)
    ensures ParseUnsigned(w) == Some((DigitsToNat(w), 0))
  {
    DigitsHaveNoPoint(w);
    assert ParseUnsigned(w) == ParseParts(w, [], false);
    assert Shift(DigitsToNat(w), 0) == DigitsToNat(w) by { assert Pow10(0) == 1; }
  }

  lemma ParseWholeAndFraction(w: string, fr: string)
    requires |w| >= 1 && AllDigits(w) && AllDigits(fr) && fr != []
    ensures ParseUnsigned(w + "." + fr) == Some((Shift(DigitsToNat(w), |fr|) + DigitsToNat(fr), |fr|))
  {
    PointAfterWhole(w, fr);
    SplitAtPoint(w, fr);
    WellFormedParts(w, fr);
  }

  lemma WellFormedParts(w: string, fr: string)
    requires |w| >= 1 && AllDigits(w) && AllDigits(fr) && fr != []
    ensures ParseParts(w, fr, true) == Some((Shift(DigitsToNat(w), |fr|) + DigitsToNat(fr), |fr|))
  {
  }

  lemma PointAfterWhole(w: string, fr: string)
    requires AllDigits(w)
    ensures IndexOf(w + "." + fr, '.') == |w|
  {
    assert forall j :: 0 <= j < |w| ==> w[j] != '.' by {
      forall j | 0 <= j < |w| ensures w[j] != '.' { assert IsDigit(w[j]); }
    }
    assert w + "." + fr == w + ("." + fr);
    IndexOfPrefix(w, "." + fr, '.');
  }

  lemma SplitAtPoint(w: string, fr: string)
    requires IndexOf(w + "." + fr, '.') == |w|
    ensures ParseUnsigned(w + "." + fr) == ParseParts(w, fr, true)
  {
    var s := w + "." + fr;
    assert s[..|w|] == w;
    assert s[|w| + 1..] == fr;
  }

  lemma ParseSigned(neg: bool, body: string)
    requires |body| >= 1 && body[0] != '-'
    ensures ParseDecimal(SignText(neg) + body) == Signed(neg, ParseUnsigned(body))
  {
    if neg {
      assert (SignText(neg) + body)[1..] == body;
    } else {
      assert SignText(neg) + body == body;
    }
  }

  /** Reading toFixed's text back gives the sign and the rounded magnitude, at scale f. */
  lemma ToFixedParses(num: int, den: nat, f: nat)
    requires den > 0
    ensures ParseDecimal(ToFixed(num, den, f))
            == Some(Dec(num < 0, RoundHalfUp(Abs(num) * Pow10(f), den), f))
  {
    FixedTextParses(num < 0, RoundHalfUp(Abs(num) * Pow10(f), den), f);
  }

  /** toFixed writes the integer part without a superfluous leading zero. */
  lemma ToFixedCanonical(num: int, den: nat, f: nat)
    requires den > 0
    ensures CanonicalWhole(ToFixed(num, den, f))
  {
    FixedTextCanonical(num < 0, RoundHalfUp(Abs(num) * Pow10(f), den), f);
  }

  /**
   * After an optional "-", the integer part is not empty and starts with '0' only
   * when it is that single digit: the '0' is followed by the point or ends the text.
   */
  predicate CanonicalWhole(s: string)
  {
    var body := if |s| > 0 && s[0] == '-' then s[1..] else s;
    |body| > 0 && IsDigit(body[0]) && (body[0] == '0' ==> |body| == 1 || body[1] == '.')
  }

  lemma FixedTextParses(neg: bool, m: nat, f: nat)
    ensures ParseDecimal(FixedText(neg, m, f)) == Some(Dec(neg, m, f))
  {
    var w := NatToDigits(Whole(m, f));
    var tail := if f == 0 then "" else "." + PadDigits(Fraction(m, f), f);
    assert FixedText(neg, m, f) == SignText(neg) + (w + tail);
    BodyParses(m, f);
    NatToDigitsCorrect(Whole(m, f));
    assert (w + tail)[0] == w[0];
    ParseSigned(neg, w + tail);
  }

  lemma FixedTextCanonical(neg: bool, m: nat, f: nat)
    ensures CanonicalWhole(FixedText(neg, m, f))
  {
    var w := NatToDigits(Whole(m, f));
    var tail := if f == 0 then "" else "." + PadDigits(Fraction(m, f), f);
    var body := w + tail;
    assert FixedText(neg, m, f) == SignText(neg) + body;
    NatToDigitsCorrect(Whole(m, f));
    assert body[0] == w[0];
    assert FixedText(neg, m, f)[|SignText(neg)|..] == body;
    if w[0] == '0' {
      assert |w| == 1;
      assert |body| == 1 || body[1] == tail[0] == '.';
    }
  }

  lemma BodyParses(m: nat, f: nat)
    ensures ParseUnsigned(NatToDigits(Whole(m, f)) + (if f == 0 then "" else "." + PadDigits(Fraction(m, f), f)))
            == Some((m, f))
  {
    if f == 0 {
      WholeTextParses(m);
      assert NatToDigits(Whole(m, f)) + "" == NatToDigits(Whole(m, f));
    } else {
      PointTextParses(m, f);
      var w, fr := NatToDigits(Whole(m, f)), PadDigits(Fraction(m, f), f);
      assert w + ("." + fr) == w + "." + fr;
    }
  }

  lemma WholeTextParses(m: nat)
    ensures ParseUnsigned(NatToDigits(Whole(m, 0))) == Some((m, 0))
  {
    var w := NatToDigits(Whole(m, 0));
    NatToDigitsCorrect(Whole(m, 0));
    ParseWhole(w);
    assert Pow10(0) == 1;
  }

  lemma PointTextParses(m: nat, f: nat)
    requires f > 0
    ensures ParseUnsigned(NatToDigits(Whole(m, f)) + "." + PadDigits(Fraction(m, f), f)) == Some((m, f))
  {
    var w := NatToDigits(Whole(m, f));
    NatToDigitsCorrect(Whole(m, f));
    var fr := PadDigits(Fraction(m, f), f);
    PadDigitsCorrect(Fraction(m, f), f);
    ParseWholeAndFraction(w, fr);
    assert Shift(Whole(m, f), f) + Fraction(m, f) == m;
  }

  /**
   * Reading toString's text back gives c / 100 exactly; there is a fraction only
   * when c / 100 is not whole, a second fraction digit only when c / 10 is not.
   */
  lemma CentiToStringParses(c: int)
    ensures var d := ParseDecimal(CentiToString(c));
            && d.Some? && d.value.neg == (c < 0) && d.value.scale <= 2
            && d.value.digits * 100 == Abs(c) * Pow10(d.value.scale)
            && (d.value.scale > 0 ==> Abs(c) % 100 != 0)
            && (d.value.scale > 1 ==> Abs(c) % 10 != 0)
  {
    var a := Abs(c);
    if a % 100 == 0 {
      FixedTextParses(c < 0, a / 100, 0);
      ExactQuotient(a, 100);
      assert Pow10(0) == 1;
    } else if a % 10 == 0 {
      FixedTextParses(c < 0, a / 10, 1);
      ExactQuotient(a, 10);
      assert Pow10(1) == 10;
    } else {
      FixedTextParses(c < 0, a, 2);
      assert Pow10(2) == 100;
    }
  }

  /** The text starts with "-" exactly for a negative sign, and has a digit after it. */
  lemma FixedTextSign(neg: bool, m: nat, f: nat)
    ensures var t := FixedText(neg, m, f);
            |t| >= (if neg then 2 else 1) && (t[0] == '-' <==> neg)
  {
    var w := NatToDigits(Whole(m, f));
    var tail := if f == 0 then "" else "." + PadDigits(Fraction(m, f), f);
    assert FixedText(neg, m, f) == SignText(neg) + (w + tail);
    NatToDigitsCorrect(Whole(m, f));
    assert IsDigit(w[0]);
    assert (w + tail)[0] == w[0];
  }

  /** toString writes the integer part without a superfluous leading zero. */
  lemma CentiToStringCanonical(c: int)
    ensures CanonicalWhole(CentiToString(c))
  {
    var a := Abs(c);
    if a % 100 == 0 {
      FixedTextCanonical(c < 0, a / 100, 0);
    } else if a % 10 == 0 {
      FixedTextCanonical(c < 0, a / 10, 1);
    } else {
      FixedTextCanonical(c < 0, a, 2);
    }
  }

  /** A multiple of p, divided by p and multiplied back, is itself; scaled by 10 if p is 10. */
  lemma ExactQuotient(a: nat, p: nat)
    requires p > 0 && a % p == 0
    ensures (a / p) * p == a && (p == 10 ==> (a / p) * 100 == a * 10)
  {
    DivisionOfNat(a, p);
  }

  /**
   * What `x.toFixed(f)` promises for x = num / den: the text reads back as the
   * sign of x and, at scale f, a magnitude no farther from |x| * 10^f than any
   * other integer k, and not smaller than an equally near k.
   */
  lemma ToFixedIsNearest(num: int, den: nat, f: nat, k: int)
    requires den > 0
    ensures var d := ParseDecimal(ToFixed(num, den, f));
            && d.Some? && d.value.neg == (num < 0) && d.value.scale == f
            && NoCloser(d.value.digits, Abs(num) * Pow10(f), den, k)
  {
    var a := Abs(num) * Pow10(f);
    var m := RoundHalfUp(a, den);
    ToFixedParses(num, den, f);
    var d := ParseDecimal(ToFixed(num, den, f));
    assert d == Some(Dec(num < 0, m, f));
    RoundHalfUpIsNearest(a, den, k);
    assert NoCloser(m, a, den, k);
  }

  /** m / b is at least as near to a / b as k / b is, and not below k on a tie. */
  predicate NoCloser(m: int, a: int, b: int, k: int)
  {
    var dm, dk := Abs(m * b - a), Abs(k * b - a);
    dm <= dk && (dm == dk ==> k <= m)
  }

  /**
   * Rounding the magnitude and restoring the sign, as toFixed does, keeps a
   * quotient s / n inside any integer interval [lo, hi] that holds it.
   */
  lemma SignedRoundWithin(s: int, n: nat, lo: int, hi: int)
    requires n > 0 && n * lo <= s <= n * hi
    ensures var m := RoundHalfUp(Abs(s), n);
            lo <= (if s < 0 then -(m as int) else m) <= hi
  {
    if s >= 0 {
      NegativeFactor(n, hi);
      var l: nat := if lo >= 0 then lo else 0;
      RoundHalfUpWithin(s, n, l, hi);
    } else {
      NegativeFactor(n, lo);
      var l: nat := if hi <= 0 then -hi else 0;
      RoundHalfUpWithin(-s, n, l, -lo);
    }
  }

  lemma NegativeFactor(n: nat, x: int)
    requires n > 0
    ensures n * x < 0 <==> x < 0
  {
    if x < 0 {
      MulLeq(x, -1, n);
    } else {
      MulLeq(0, x, n);
    }
  }
}
