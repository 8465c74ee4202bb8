/** Fixed-point decimal text, as JavaScript's `Number.prototype.toFixed`
    writes it, over exact reals.

    `toFixed(p)` writes a minus sign when the number is negative, then the
    magnitude rounded to `p` fraction digits, halves rounding up (so the
    signed value rounds half away from zero). `FixedText` is that text,
    `Rounded` the number it denotes, and `TextValue` reads such a text back;
    `ParseFixedText` proves that reading the text gives `Rounded`. */
module Decimal {
  import opened Results

  function Pow10(p: nat): (r: nat)
    ensures r >= 1
  {
    if p == 0 then 1 else 10 * Pow10(p - 1)
  }

  function Abs(x: real): (r: real)
    ensures r >= 0.0 && (r == x || r == -x)
  {
    if x < 0.0 then -x else x
  }

  /** The integer `toFixed(p)` writes for a magnitude `x`: the integer
      nearest to `x * 10^p`, a half rounding up (`ScaledNearest`). */
  function ScaledMagnitude(x: real, p: nat): nat
    requires x >= 0.0
  {
    var y := x * Pow10(p) as real;
    assert y >= 0.0;
    (y + 0.5).Floor
  }

  lemma ScaledNearest(x: real, p: nat)
    requires x >= 0.0
    ensures ScaledMagnitude(x, p) as real - 0.5 <= x * Pow10(p) as real < ScaledMagnitude(x, p) as real + 0.5
  {
  }

  /** `x.toFixed(p)` read as a whole number of units of `10^-p`: the
      magnitude rounded as above, with the sign of `x` put back, so
      the signed value rounds half away from zero. */
  function RoundedUnits(x: real, p: nat): (u: int)
    ensures x >= 0.0 ==> u >= 0
    ensures x <= 0.0 ==> u <= 0
  {
    if x < 0.0 then -(ScaledMagnitude(-x, p) as int) else ScaledMagnitude(x, p)
  }

  lemma RoundedUnitsNear(x: real, p: nat)
    ensures x * Pow10(p) as real - 0.5 <= RoundedUnits(x, p) as real <= x * Pow10(p) as real + 0.5
  {
    var s := Pow10(p) as real;
    if x < 0.0 {
      ScaledNearest(-x, p);
      NegMul(x, s);
    } else {
      ScaledNearest(x, p);
    }
  }

  /** The number denoted by `x.toFixed(p)`, i.e. `parseFloat(x.toFixed(p))`;
      it has the sign of `x` (`RoundedNear` bounds its distance to `x`). */
  function Rounded(x: real, p: nat): (r: real)
    ensures x >= 0.0 ==> r >= 0.0
    ensures x <= 0.0 ==> r <= 0.0
  {
    RoundedUnits(x, p) as real / Pow10(p) as real
  }

  /** `Rounded(x, p)` is within half a unit of `10^-p` of `x`. */
  lemma RoundedNear(x: real, p: nat)
    ensures -0.5 <= (Rounded(x, p) - x) * Pow10(p) as real <= 0.5
  {
    RoundedUnitsNear(x, p);
    RoundedOnGrid(x, p);
    Distribute(Rounded(x, p), x, Pow10(p) as real);
  }

  /** `Rounded(x, p)` lies on the grid of multiples of `10^-p`: it is a
      whole number of units. */
  lemma RoundedOnGrid(x: real, p: nat)
    ensures Rounded(x, p) * Pow10(p) as real == RoundedUnits(x, p) as real
  {
    var u, s := RoundedUnits(x, p) as real, Pow10(p) as real;
    assert Rounded(x, p) == u / s;
    DivThenMul(u, s);
  }

  /** A tie rounds away from zero: a magnitude exactly halfway between two
      grid points goes to the larger one, and the sign is put back. */
  lemma RoundedTie(x: real, p: nat, n: nat)
    ensures x * Pow10(p) as real == n as real + 0.5 ==> Rounded(x, p) == (n + 1) as real / Pow10(p) as real
    ensures x * Pow10(p) as real == -(n as real + 0.5) ==> Rounded(x, p) == -((n + 1) as real / Pow10(p) as real)
  {
    var s := Pow10(p) as real;
    if x * s == n as real + 0.5 {
      PositiveFactor(x, s);
      MagnitudeOf(x, p, n + 1);
    } else if x * s == -(n as real + 0.5) {
      NegMul(x, s);
      PositiveFactor(-x, s);
      MagnitudeOf(-x, p, n + 1);
      NegDiv((n + 1) as real, s);
    }
  }

  /** The integer `toFixed` writes for a magnitude whose scaled value plus
      a half lies in `[k, k + 1)`. */
  lemma MagnitudeOf(x: real, p: nat, k: nat)
    requires x >= 0.0
    requires k as real <= x * Pow10(p) as real + 0.5 < k as real + 1.0
    ensures ScaledMagnitude(x, p) == k
  {
  }

  lemma Distribute(r: real, x: real, s: real)
    ensures (r - x) * s == r * s - x * s
  {
  }

  lemma PositiveFactor(x: real, s: real)
    requires s > 0.0 && x * s > 0.0
    ensures x > 0.0
  {
    if x <= 0.0 {
      MulMonotone(x, 0.0, s);
    }
  }

  lemma DivThenMul(u: real, s: real)
    requires s > 0.0
    ensures (u / s) * s == u
  {
  }

  lemma MulAssoc(a: int, b: int, c: int)
    ensures a * (b * c) == b * (a * c)
  {
  }

  lemma NegMul(x: real, s: real)
    ensures (-x) * s == -(x * s)
  {
  }

  predicate IsDigit(c: char) {
    '0' <= c <= '9'
  }

  predicate AllDigits(s: string) {
    forall i :: 0 <= i < |s| ==> IsDigit(s[i])
  }

  function DigitChar(d: nat): (c: char)
    requires d < 10
    ensures IsDigit(c) && (c as int - '0' as int) == d
  {
    ('0' as int + d) as char
  }

  /** The decimal digits of `n`, without leading zeros (as `String(n)`). */
  function NatText(n: nat): (s: string)
    ensures |s| >= 1 && AllDigits(s)
    decreases n
  {
    if n < 10 then [DigitChar(n)] else NatText(n / 10) + [DigitChar(n % 10)]
  }

  /** The last `width` decimal digits of `n`, with leading zeros. */
  function PaddedText(n: nat, width: nat): (s: string)
    ensures |s| == width && AllDigits(s)
  {
    if width == 0 then "" else PaddedText(n / 10, width - 1) + [DigitChar(n % 10)]
  }

  /** The number a string of decimal digits stands for. */
  function DigitsValue(s: string): nat
    requires AllDigits(s)
  {
    if s == [] then 0 else 10 * DigitsValue(s[..|s| - 1]) + (s[|s| - 1] as int - '0' as int)
  }

  /** `n` with its last `p` decimal digits dropped (`n / 10^p`). */
  function DropDigits(n: nat, p: nat): nat {
    if p == 0 then n else DropDigits(n / 10, p - 1)
  }

  /** The number formed by the last `p` decimal digits of `n` (`n % 10^p`). */
  function LowDigits(n: nat, p: nat): (r: nat)
    ensures r < Pow10(p)
  {
    if p == 0 then 0 else 10 * LowDigits(n / 10, p - 1) + n % 10
  }

  /** The text `x.toFixed(p)`: a minus sign for a negative `x`, the whole
      part of the rounded magnitude, then a point and exactly `p` digits. */
  function FixedText(x: real, p: nat): (s: string)
    ensures |s| > 0
  {
    var m := ScaledMagnitude(Abs(x), p);
    (if x < 0.0 then "-" else "")
    + NatText(DropDigits(m, p))
    + (if p == 0 then "" else "." + PaddedText(m, p))
  }

  /** The position of the first `c` in `s`, or `|s|` if there is none. */
  function Find(s: string, c: char): (k: nat)
    ensures k <= |s|
    ensures forall i :: 0 <= i < k ==> s[i] != c
    ensures k < |s| ==> s[k] == c
  {
    if s == [] then 0
    else if s[0] == c then 0
    else 1 + Find(s[1..], c)
  }

  /** The value of a text of the form `digits` or `digits.digits`. */
  function UnsignedValue(s: string): Option<real> {
    var k := Find(s, '.');
    var whole := s[..k];
    var frac := if k < |s| then s[k + 1..] else "";
    if whole == [] || !AllDigits(whole) || (k < |s| && (frac == [] || !AllDigits(frac))) then None
    else Some(PointNumber(DigitsValue(whole), DigitsValue(frac), |frac|))
  }

  /** The number written `whole.frac` when `frac` has `width` digits. */
  function PointNumber(whole: nat, frac: nat, width: nat): real {
    whole as real + frac as real / Pow10(width) as real
  }

  /** The value of a fixed-point text with an optional leading minus sign:
      the part of `parseFloat` that `toFixed` output needs. */
  function TextValue(s: string): Option<real> {
    if |s| > 0 && s[0] == '-' then
      match UnsignedValue(s[1..])
      case None => None
      case Some(v) => Some(-v)
    else UnsignedValue(s)
  }

  lemma {:induction false} NatTextValue(n: nat)
    ensures DigitsValue(NatText(n)) == n
    decreases n
  {
    if n >= 10 {
      var s := NatText(n);
      assert s[..|s| - 1] == NatText(n / 10);
      NatTextValue(n / 10);
    }
  }

  lemma {:induction false} PaddedTextValue(n: nat, width: nat)
    ensures DigitsValue(PaddedText(n, width)) == LowDigits(n, width)
  {
    if width > 0 {
      var s, t, c := PaddedText(n, width), PaddedText(n / 10, width - 1), DigitChar(n % 10);
      assert s == t + [c];
      assert s[..|s| - 1] == t && s[|s| - 1] == c;
      PaddedTextValue(n / 10, width - 1);
      assert DigitsValue(s) == 10 * DigitsValue(t) + n % 10;
    }
  }

  /** Splitting `n` into its high and low digits loses nothing. */
  lemma {:induction false} SplitDigits(n: nat, p: nat)
    ensures DropDigits(n, p) * Pow10(p) + LowDigits(n, p) == n
  {
    if p > 0 {
      SplitDigits(n / 10, p - 1);
      var h, l, q := DropDigits(n / 10, p - 1), LowDigits(n / 10, p - 1), Pow10(p - 1);
      assert h * q + l == n / 10;
      assert Pow10(p) == 10 * q && LowDigits(n, p) == 10 * l + n % 10;
      MulAssoc(h, 10, q);
      assert h * (10 * q) == 10 * (h * q);
    }
  }

  /** Reading back the text `toFixed` writes gives the rounded number:
      `parseFloat(x.toFixed(p)) == Rounded(x, p)`. */
  lemma ParseFixedText(x: real, p: nat)
    ensures TextValue(FixedText(x, p)) == Some(Rounded(x, p))
  {
    var m := ScaledMagnitude(Abs(x), p);
    var v := FixedTextParts(x, p, m);
    if x < 0.0 {
      NegativeRounded(x, p, m as real, v);
    } else {
      assert Rounded(x, p) == v;
    }
  }

  /** The text `toFixed` writes is a sign and the digits of the rounded
      magnitude, which read back as `m / 10^p`. */
  lemma FixedTextParts(x: real, p: nat, m: nat) returns (v: real)
    requires m == ScaledMagnitude(Abs(x), p)
    ensures v == m as real / Pow10(p) as real
    ensures x < 0.0 ==> TextValue(FixedText(x, p)) == Some(-v)
    ensures x >= 0.0 ==> TextValue(FixedText(x, p)) == Some(v)
  {
    var body := UnsignedText(m, p);
    assert FixedText(x, p) == (if x < 0.0 then "-" else "") + body;
    v := UnsignedTextValue(m, p);
    SignedTextValue(body, v);
    assert "" + body == body;
  }

  lemma SignedTextValue(body: string, v: real)
    requires |body| > 0 && IsDigit(body[0])
    requires UnsignedValue(body) == Some(v)
    ensures TextValue(body) == Some(v)
    ensures TextValue("-" + body) == Some(-v)
  {
    assert ("-" + body)[1..] == body;
  }

  lemma NegativeRounded(x: real, p: nat, m: real, v: real)
    requires x < 0.0
    requires m == ScaledMagnitude(-x, p) as real
    requires v == m / Pow10(p) as real
    ensures Rounded(x, p) == -v
  {
    var u, s := RoundedUnits(x, p) as real, Pow10(p) as real;
    assert u == -m;
    assert Rounded(x, p) == u / s;
    NegDiv(m, s);
  }

  /** The text `toFixed` writes for the magnitude, `m` units of `10^-p`. */
  function UnsignedText(m: nat, p: nat): (s: string)
    ensures |s| > 0 && IsDigit(s[0])
  {
    NatText(DropDigits(m, p)) + (if p == 0 then "" else "." + PaddedText(m, p))
  }

  lemma UnsignedTextValue(m: nat, p: nat) returns (v: real)
    ensures v == m as real / Pow10(p) as real
    ensures UnsignedValue(UnsignedText(m, p)) == Some(v)
  {
    var whole := NatText(DropDigits(m, p));
    NatTextValue(DropDigits(m, p));
    v := UnitsValue(m, p);
    if p == 0 {
      assert UnsignedText(m, p) == whole;
      WholeValue(whole);
    } else {
      var frac := PaddedText(m, p);
      assert UnsignedText(m, p) == whole + ("." + frac);
      PointValue(whole, frac);
      PaddedTextValue(m, p);
    }
  }

  /** A text of digits alone reads as their value. */
  lemma WholeValue(whole: string)
    requires whole != [] && AllDigits(whole)
    ensures UnsignedValue(whole) == Some(DigitsValue(whole) as real)
  {
    FindAfterDigits(whole, "", '.');
    assert whole[..|whole|] == whole;
  }

  /** A text `whole.frac` reads as the whole part plus the fraction. */
  lemma PointValue(whole: string, frac: string)
    requires whole != [] && AllDigits(whole) && frac != [] && AllDigits(frac)
    ensures UnsignedValue(whole + ("." + frac)) == Some(PointNumber(DigitsValue(whole), DigitsValue(frac), |frac|))
  {
    var body := whole + ("." + frac);
    FindAfterDigits(whole, "." + frac, '.');
    var k := Find(body, '.');
    assert k == |whole| && k < |body|;
    assert body[..k] == whole;
    assert body[k + 1..] == frac;
  }

  /** The value of the digits of `m` with a point before the last `p`. */
  lemma UnitsValue(m: nat, p: nat) returns (v: real)
    ensures v == m as real / Pow10(p) as real
    ensures v == PointNumber(DropDigits(m, p), LowDigits(m, p), p)
  {
    SplitDigits(m, p);
    SplitQuotient(DropDigits(m, p) as real, LowDigits(m, p) as real, Pow10(p) as real, m as real);
    v := m as real / Pow10(p) as real;
  }

  lemma SplitQuotient(h: real, l: real, s: real, n: real)
    requires s > 0.0 && h * s + l == n
    ensures n / s == h + l / s
  {
    assert (h + l / s) * s == h * s + l;
  }

  lemma {:induction false} FindAfterDigits(digits: string, rest: string, c: char)
    requires AllDigits(digits) && !IsDigit(c)
    requires rest == [] || rest[0] == c
    ensures Find(digits + rest, c) == |digits|
  {
    if digits != [] {
      assert (digits + rest)[1..] == digits[1..] + rest;
      FindAfterDigits(digits[1..], rest, c);
    } else {
      assert digits + rest == rest;
    }
  }

  /** Rounding to `p` places never gives a larger input a smaller result. */
  lemma RoundedMonotone(x: real, y: real, p: nat)
    requires x <= y
    ensures Rounded(x, p) <= Rounded(y, p)
  {
    if 0.0 <= x {
      ScaledMonotone(x, y, p);
    } else if y < 0.0 {
      ScaledMonotone(-y, -x, p);
    }
    DivMonotone(RoundedUnits(x, p) as real, RoundedUnits(y, p) as real, Pow10(p) as real);
  }

  lemma ScaledMonotone(x: real, y: real, p: nat)
    requires 0.0 <= x <= y
    ensures ScaledMagnitude(x, p) <= ScaledMagnitude(y, p)
  {
    ScaledNearest(x, p);
    ScaledNearest(y, p);
    MulMonotone(x, y, Pow10(p) as real);
  }

  /** A number that already has at most `p` fraction digits is kept as is. */
  lemma RoundedExact(x: real, p: nat, n: int)
    requires x * Pow10(p) as real == n as real
    ensures Rounded(x, p) == x
  {
    RoundedUnitsNear(x, p);
    assert RoundedUnits(x, p) == n;
    DivOfProduct(x, n as real, Pow10(p) as real);
  }

  lemma MulMonotone(x: real, y: real, s: real)
    requires x <= y && s > 0.0
    ensures x * s <= y * s
  {
  }

  lemma DivMonotone(u: real, w: real, s: real)
    requires u <= w && s > 0.0
    ensures u / s <= w / s
  {
  }

  lemma NegDiv(a: real, s: real)
    requires s > 0.0
    ensures (-a) / s == -(a / s)
  {
  }

  lemma DivOfProduct(x: real, n: real, s: real)
    requires s > 0.0 && x * s == n
    ensures n / s == x
  {
  }
}
