/** Texts as values: which texts of the value of a normal number are read as that number, and
    some numbers and their texts. */
module FloatValue {
  import opened Wrappers
  import opened Words
  import opened NumberText
  import opened FloatText

  // ---------------------------------------------------------------- reading a value

  function Abs(a: int): nat
  {
    if a < 0 then -a else a
  }

  /** The magnitudes on both sides of a value. */
  lemma DenotesMagnitude(fmt: Format, d: Decomposed, negative: bool, magnitude: nat)
    requires 1 <= fmt.expBits && Denotes(fmt, d, negative, magnitude) && magnitude > 0
    ensures d.x + Unit(fmt) >= 0 && Abs(d.frac) * Pow2(d.x + Unit(fmt)) == magnitude && (d.frac < 0 <==> negative) && d.frac != 0
  {
    var p := Pow2(d.x + Unit(fmt));
    hide Unit, Pow2;
    if d.frac < 0 {
      MulAtMost(1, -d.frac, p);
      assert (0 - d.frac) * p == 0 - d.frac * p;
    } else if d.frac > 0 {
      MulAtMost(1, d.frac, p);
    }
  }

  /** Two normalised fractions with the same value are the same, and so are their exponents. */
  lemma {:induction false} Normalised(m: nat, a: nat, x: nat, b: nat, y: nat)
    requires m >= 1 && m <= a < 2 * m && m <= b < 2 * m && a * Pow2(x) == b * Pow2(y)
    ensures a == b && x == y
  {
    if x < y {
      Higher(m, a, x, b, y);
    } else if y < x {
      Higher(m, b, y, a, x);
    } else {
      SameFactor(a, b, Pow2(x));
    }
  }

  lemma SameFactor(a: nat, b: nat, p: nat)
    requires p >= 1 && a * p == b * p
    ensures a == b
  {
    if a < b {
      MulLess(a, b, p);
    } else if b < a {
      MulLess(b, a, p);
    }
  }

  lemma Higher(m: nat, a: nat, x: nat, b: nat, y: nat)
    requires m >= 1 && a < 2 * m && m <= b && x < y
    ensures a * Pow2(x) < b * Pow2(y)
  {
    Pow2Monotone(x + 1, y);
    assert Pow2(x + 1) == 2 * Pow2(x);
    var p, q := Pow2(x), Pow2(y);
    hide Pow2;
    MulLess(a, 2 * m, p);
    assert 2 * m * p == m * (2 * p);
    MulAtMost(2 * p, q, m);
    MulAtMost(m, b, q);
  }

  /** Lifting keeps the value: down to an exponent of zero, and below. */
  lemma {:induction false} LiftKeepsValue(fmt: Format, low: nat, x: int)
    requires 0 < low < 2 * Hidden(fmt)
    ensures var (lifted, e) := Lift(fmt, low, x); e <= x && lifted == low * Pow2(x - e)
    decreases 2 * Hidden(fmt) - low
  {
    hide Hidden;
    if low < Hidden(fmt) {
      LiftKeepsValue(fmt, 2 * low, x - 1);
      var (lifted, e) := Lift(fmt, 2 * low, x - 1);
      assert Pow2(x - e) == 2 * Pow2(x - 1 - e);
      MulSwap(low, 2, Pow2(x - 1 - e));
    } else {
      assert Pow2(0) == 1;
    }
  }

  /** The exponent a value allows is small. */
  lemma SmallExponent(a: nat, x: nat, base: nat, e: nat, k: nat)
    requires a >= 1 && base < Pow2(k) && a * Pow2(x) == base * Pow2(e)
    ensures x < k + e
  {
    if x >= k + e {
      Pow2Monotone(k + e, x);
      Pow2Add(k, e);
      var p, q, r := Pow2(x), Pow2(k), Pow2(e);
      hide Pow2;
      MulAtMost(1, a, p);
      MulLess(base, q, r);
      assert false;
    }
  }

  /** Where lifting takes a fraction of the same value as a normalised one. */
  lemma {:induction false} LiftsTo(fmt: Format, a: nat, x: nat, base: nat, e: nat)
    requires 0 < a < 2 * Hidden(fmt) && Hidden(fmt) <= base < 2 * Hidden(fmt) && a * Pow2(x) == base * Pow2(e)
    ensures Lift(fmt, a, x) == (base, e) && a * Pow2(x - e) == base
  {
    LiftKeepsValue(fmt, a, x);
    var (lifted, f) := Lift(fmt, a, x);
    var m := Hidden(fmt);
    hide Hidden, Lift;
    if f >= 0 {
      Pow2Add(x - f, f);
      MulSwap(a, Pow2(x - f), Pow2(f));
      Normalised(m, lifted, f, base, e);
    } else {
      Pow2Add(x, -f);
      Pow2Add(e, -f);
      MulSwap(a, Pow2(x), Pow2(-f));
      MulSwap(base, Pow2(e), Pow2(-f));
      assert Pow2(0) == 1;
      Normalised(m, lifted, 0, base, e - f);
    }
  }

  /** A text of the value of a normal number. */
  ghost predicate IsTextOf(fmt: Format, d: Decomposed, w: nat)
  {
    && w < 2 * SignBit(fmt) && IsFinite(fmt, w) && Exponent(fmt, w) > 0
    && 1 <= fmt.expBits && Denotes(fmt, d, w >= SignBit(fmt), Magnitude(fmt, w))
  }

  lemma TextParts(fmt: Format, d: Decomposed, w: nat)
    requires IsFormat(fmt) && IsTextOf(fmt, d, w)
    ensures var x, a, base, e := d.x + fmt.bias, Abs(d.frac), Fraction(fmt, w) + Hidden(fmt), Exponent(fmt, w);
            && 0 <= x < TWO_TO_31 && 0 < a && (d.frac < 0 <==> w >= SignBit(fmt))
            && a * Pow2(x) == base * Pow2(e) && Hidden(fmt) <= base < 2 * Hidden(fmt) && e < Pow2(fmt.expBits)
  {
    hide IsFormat, Fraction, Exponent, Hidden, SignBit, Unit, Denotes, Pow2, IsFinite, Magnitude;
    UnitIsBias(fmt);
    HiddenNext(fmt);
    var base, e := Fraction(fmt, w) + Hidden(fmt), Exponent(fmt, w);
    ExponentBound(fmt);
    MagnitudeIs(fmt, w);
    ProductPositive(base, Pow2(e));
    DenotesMagnitude(fmt, d, w >= SignBit(fmt), Magnitude(fmt, w));
    SmallExponent(Abs(d.frac), d.x + fmt.bias, base, e, fmt.fracBits + 1);
  }

  lemma ProductPositive(a: nat, b: nat)
    requires a > 0 && b > 0
    ensures a * b > 0
  {
    MulAtMost(1, a, b);
  }

  lemma MagnitudeIs(fmt: Format, w: nat)
    requires Exponent(fmt, w) > 0
    ensures Magnitude(fmt, w) == (Fraction(fmt, w) + Hidden(fmt)) * Pow2(Exponent(fmt, w))
  {
    hide Fraction, Exponent, Hidden, Pow2;
  }

  lemma ExponentBound(fmt: Format)
    requires IsFormat(fmt)
    ensures fmt.fracBits + 1 + Pow2(fmt.expBits) < TWO_TO_31 && 2 * Hidden(fmt) <= SignBit(fmt)
  {
    FormatSizes();
  }

  /** Recomposing, where it is known what the bits are and where lifting takes them. */
  lemma RecomposesTo(fmt: Format, d: Decomposed, a: nat, base: nat, e: nat)
    requires LowBits(fmt, d.frac) == a == Abs(d.frac) && a > 0 && e <= d.x + fmt.bias < TWO_TO_31
    requires Lift(fmt, a, d.x + fmt.bias) == (base, e) && e < Pow2(fmt.expBits) && a * Pow2(d.x + fmt.bias - e) < SignBit(fmt)
    ensures base >= Hidden(fmt) && Recomposition(fmt, d.frac, d.x) == Some(Compose(fmt, base - Hidden(fmt), e, d.frac < 0))
  {
    hide LowBits, Lift, SignBit, Hidden, Compose, Pow2;
  }

  lemma ShortFraction(fmt: Format, d: Decomposed, w: nat)
    requires IsFormat(fmt) && IsTextOf(fmt, d, w) && Abs(d.frac) < 2 * Hidden(fmt)
    ensures Recomposition(fmt, d.frac, d.x) == Some(w)
  {
    hide Fraction, Exponent, Hidden, SignBit, Lift, Compose, LowBits, Pow2, Recomposition, Unit, Denotes, Magnitude, IsFinite, IsFormat;
    TextParts(fmt, d, w);
    ExponentBound(fmt);
    var x, base, e := d.x + fmt.bias, Fraction(fmt, w) + Hidden(fmt), Exponent(fmt, w);
    LiftsTo(fmt, Abs(d.frac), x, base, e);
    AreLowBits(fmt, d.frac);
    RecomposesTo(fmt, d, Abs(d.frac), base, e);
    ComposeParts(fmt, w);
  }

  /** Recomposing never ends at an exponent above that of the text. */
  lemma RecomposesBelow(fmt: Format, d: Decomposed, f: nat, e: nat, negative: bool)
    requires 0 <= d.x + fmt.bias < e && f < Hidden(fmt) && d.frac != 0 && negative == (d.frac < 0)
    ensures Recomposition(fmt, d.frac, d.x) != Some(Compose(fmt, f, e, negative))
  {
    hide Lift, LowBits, Pow2, Hidden, ShiftsDefined, Compose;
    var low, x := LowBits(fmt, d.frac), d.x + fmt.bias;
    if low > 0 {
      var (lifted, g) := Lift(fmt, low, x);
      if 0 <= g {
        ExponentShows(fmt, lifted - Hidden(fmt), g, f, e, negative);
      } else {
        NotDefined(fmt, d.frac, x, g);
      }
    }
  }

  lemma NotDefined(fmt: Format, frac: int, x: int, e: int)
    requires e < 0 && e <= x
    ensures !ShiftsDefined(fmt, frac, x, e)
  {
  }

  lemma LongFraction(fmt: Format, d: Decomposed, w: nat)
    requires IsFormat(fmt) && IsTextOf(fmt, d, w) && 2 * Hidden(fmt) <= Abs(d.frac)
    ensures Recomposition(fmt, d.frac, d.x) != Some(w)
  {
    hide Fraction, Exponent, Hidden, SignBit, Compose, Pow2, Recomposition, Unit, Denotes, Magnitude, IsFinite, IsFormat;
    TextParts(fmt, d, w);
    LowerExponent(Abs(d.frac), d.x + fmt.bias, Fraction(fmt, w) + Hidden(fmt), Exponent(fmt, w));
    ComposeParts(fmt, w);
    RecomposesBelow(fmt, d, Fraction(fmt, w), Exponent(fmt, w), d.frac < 0);
  }

  lemma LowerExponent(a: nat, x: nat, base: nat, e: nat)
    requires base < a && a * Pow2(x) == base * Pow2(e)
    ensures x < e
  {
    if e <= x {
      Pow2Monotone(e, x);
      var p, q := Pow2(e), Pow2(x);
      hide Pow2;
      MulAtMost(p, q, a);
      MulLess(base, a, p);
      assert false;
    }
  }

  lemma ExponentShows(fmt: Format, f: nat, x: nat, g: nat, y: nat, negative: bool)
    requires f < Hidden(fmt) && g < Hidden(fmt) && x != y
    ensures Compose(fmt, f, x, negative) != Compose(fmt, g, y, negative)
  {
    var m := Hidden(fmt);
    hide Hidden;
    QuotientOf(f + x * m, m, x, f);
    QuotientOf(g + y * m, m, y, g);
  }

  /** A text of the value of a normal number, however written, is read as that number if and only
      if its fraction has at most one bit more than the format has fraction bits. */
  lemma ValueDecodesIff(fmt: Format, s: string, d: Decomposed, w: nat)
    requires IsFormat(fmt) && IsCString(s) && ParseText(fmt, s) == Some(d) && IsTextOf(fmt, d, w)
    ensures DecodeText(fmt, s) == Some(w) <==> Abs(d.frac) < 2 * Hidden(fmt)
  {
    hide IsTextOf, ParseText, Recomposition, Hidden;
    if Abs(d.frac) < 2 * Hidden(fmt) {
      ShortFraction(fmt, d, w);
    } else {
      LongFraction(fmt, d, w);
    }
  }

  // ---------------------------------------------------------------- some numbers

  lemma {:induction false} StripOf(odd: nat, k: nat, x: int)
    requires odd % 2 == 1
    ensures Strip(odd * Pow2(k), x) == (odd, x + k)
    decreases k
  {
    if k > 0 {
      assert Pow2(k) == 2 * Pow2(k - 1);
      assert odd * Pow2(k) == 2 * (odd * Pow2(k - 1));
      MulAtMost(1, odd, Pow2(k));
      StripOf(odd, k - 1, x + 1);
    } else {
      assert Pow2(0) == 1;
    }
  }

  lemma TextFrom(fmt: Format, w: nat, f: nat, e: nat, odd: nat, k: nat)
    requires w > 0 && Fraction(fmt, w) == f && Exponent(fmt, w) == e && f + Hidden(fmt) == odd * Pow2(k) && odd % 2 == 1
    ensures EncodeText(fmt, w) == TextOf(Decomposed(if w >= SignBit(fmt) then 0 - odd else odd, e + k - fmt.bias))
  {
    StripOf(odd, k, e);
    hide Strip, Fraction, Exponent, Hidden, SignBit, Pow2, TextOf;
  }

  lemma FloatParts(w: nat)
    ensures Fraction(FLOAT, w) == w % 0x80_0000 && Exponent(FLOAT, w) == w / 0x80_0000 % 256
    ensures SignBit(FLOAT) == 0x8000_0000 && Hidden(FLOAT) == 0x80_0000 == Pow2(23) && Pow2(21) == 0x20_0000
  {
    FormatSizes();
    assert Pow2(23) == 2 * (2 * Pow2(21));
  }

  lemma DoubleParts(w: nat)
    ensures Fraction(DOUBLE, w) == w % 0x10_0000_0000_0000 && Exponent(DOUBLE, w) == w / 0x10_0000_0000_0000 % 2048
    ensures SignBit(DOUBLE) == 0x8000_0000_0000_0000 && Hidden(DOUBLE) == 0x10_0000_0000_0000 == Pow2(52)
  {
    FormatSizes();
  }

  lemma SmallTexts()
    ensures TextOf(Decomposed(1, 0)) == "1" && TextOf(Decomposed(-5, 0)) == "-5" && TextOf(Decomposed(1, -1)) == "1^-1"
    ensures IntText(-120) == "-120"
  {
    assert Digits(12) == "12" && Digits(120) == "120";
  }

  /** One, minus five and one half in binary32, and one in binary64. */
  lemma NumberExamples()
    ensures EncodeText(FLOAT, 0x3F80_0000) == "1" && EncodeText(FLOAT, 0xC0A0_0000) == "-5" && EncodeText(FLOAT, 0x3F00_0000) == "1^-1"
    ensures EncodeText(DOUBLE, 0x3FF0_0000_0000_0000) == "1"
  {
    hide Fraction, Exponent, Hidden, SignBit, Pow2, TextOf, EncodeText;
    SmallTexts();
    FloatParts(0x3F80_0000);
    FloatParts(0xC0A0_0000);
    FloatParts(0x3F00_0000);
    DoubleParts(0x3FF0_0000_0000_0000);
    TextFrom(FLOAT, 0x3F80_0000, 0, 127, 1, 23);
    TextFrom(FLOAT, 0xC0A0_0000, 0x20_0000, 129, 5, 21);
    TextFrom(FLOAT, 0x3F00_0000, 0, 126, 1, 23);
    TextFrom(DOUBLE, 0x3FF0_0000_0000_0000, 0, 1023, 1, 52);
  }
}
