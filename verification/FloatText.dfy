/** Floating point numbers as exact text `fraction^exponent`, by way of their bit patterns
    (section 3.4 of IEEE 754-2008). */
module FloatText {
  import opened Wrappers
  import opened Words
  import opened NumberText

  /** A binary interchange format; `zeroCase` tells whether recomposing has a case for zero,
      and `fracLimit` bounds the integer type that holds the fraction. */
  datatype Format = Format(fracBits: nat, expBits: nat, bias: nat, zeroCase: bool, fracLimit: int)

  const FLOAT := Format(23, 8, 150, true, 0x8000_0000)
  const DOUBLE := Format(52, 11, 1075, false, 0x8000_0000_0000_0000)

  predicate IsFormat(fmt: Format)
  {
    fmt == FLOAT || fmt == DOUBLE
  }

  /** The types of the fraction and of the exponent; neither may overflow. */
  function FracType(fmt: Format): IntType
  {
    IntType(-fmt.fracLimit, fmt.fracLimit - 1, false)
  }

  const EXPONENT_TYPE := IntType(-TWO_TO_31, TWO_TO_31 - 1, false)

  /** The hidden bit. */
  function Hidden(fmt: Format): (m: nat)
    ensures m >= 1
  {
    Pow2(fmt.fracBits)
  }

  function SignBit(fmt: Format): (m: nat)
    ensures m >= 1
  {
    Pow2(fmt.fracBits + fmt.expBits)
  }

  function Fraction(fmt: Format, w: nat): (f: nat)
    ensures f < Hidden(fmt)
  {
    w % Hidden(fmt)
  }

  function Exponent(fmt: Format, w: nat): (x: nat)
    ensures x < Pow2(fmt.expBits)
  {
    w / Hidden(fmt) % Pow2(fmt.expBits)
  }

  lemma SignBitIs(fmt: Format)
    ensures SignBit(fmt) == Hidden(fmt) * Pow2(fmt.expBits)
  {
    Pow2Add(fmt.fracBits, fmt.expBits);
  }

  /** A bit pattern is its fraction, exponent and sign. */
  lemma PartsOf(fmt: Format, w: nat)
    requires w < 2 * SignBit(fmt)
    ensures w == Fraction(fmt, w) + Exponent(fmt, w) * Hidden(fmt) + if w >= SignBit(fmt) then SignBit(fmt) else 0
  {
    SignBitIs(fmt);
    Parts(w, Hidden(fmt), Pow2(fmt.expBits));
  }

  lemma Parts(w: nat, m: nat, e: nat)
    requires m >= 1 && e >= 1 && w < 2 * (m * e)
    ensures w == w % m + w / m % e * m + if w >= m * e then m * e else 0
  {
    if w < m * e {
      LowParts(w, m, e);
    } else {
      var v := w - m * e;
      LowParts(v, m, e);
      MulSplit(v / m, e, m);
      assert e * m == m * e;
      QuotientOf(w, m, v / m + e, v % m);
      QuotientOf(v / m + e, e, 1, v / m);
    }
  }

  lemma LowParts(w: nat, m: nat, e: nat)
    requires m >= 1 && e >= 1 && w < m * e
    ensures w == w % m + w / m * m && w / m < e && w / m % e == w / m
  {
    var q := w / m;
    assert q * m <= w < (q + 1) * m;
    assert e * m == m * e;
    if q >= e {
      MulAtMost(e, q, m);
      assert false;
    }
    SmallMod(q, e);
  }

  // ---------------------------------------------------------------- decomposing

  datatype Decomposed = Decomposed(frac: int, x: int)

  /** Makes a fraction odd. */
  function Strip(base: nat, x: int): (r: (nat, int))
    requires base > 0
    ensures r.0 > 0
  {
    if base % 2 == 1 then (base, x) else Strip(base / 2, x + 1)
  }

  function Decomposition(fmt: Format, w: nat): Decomposed
  {
    if w == 0 then Decomposed(0, 0)
    else
      var (odd, x) := Strip(Fraction(fmt, w) + Hidden(fmt), Exponent(fmt, w));
      Decomposed(if w >= SignBit(fmt) then 0 - odd else odd, x - fmt.bias)
  }

  method Decompose(fmt: Format, w: nat) returns (frac: int, x: int)
    ensures Decomposed(frac, x) == Decomposition(fmt, w)
  {
    if w == 0 {
      return 0, 0;
    }
    var baseFrac := w % Hidden(fmt) + Hidden(fmt);
    var baseX: int := w / Hidden(fmt) % Pow2(fmt.expBits);
    while baseFrac % 2 == 0
      invariant baseFrac > 0
      invariant Strip(baseFrac, baseX) == Strip(Fraction(fmt, w) + Hidden(fmt), Exponent(fmt, w))
      decreases baseFrac
    {
      baseX := baseX + 1;
      baseFrac := baseFrac / 2;
    }
    x := baseX - fmt.bias;
    if w >= SignBit(fmt) {
      baseFrac := -baseFrac;
    }
    frac := baseFrac;
  }

  // ---------------------------------------------------------------- recomposing

  predicate HasHidden(fmt: Format, a: nat)
  {
    a / Hidden(fmt) % 2 == 1
  }

  function ShiftOnce(fmt: Format, a: nat): nat
  {
    a * 2 % (2 * SignBit(fmt))
  }

  /** Shifts up until the hidden bit is in place. */
  function Lift(fmt: Format, low: nat, x: int): (r: (nat, int))
    requires 0 < low < 2 * Hidden(fmt)
    ensures Hidden(fmt) <= r.0 < 2 * Hidden(fmt) && r.1 <= x
    decreases 2 * Hidden(fmt) - low
  {
    if low >= Hidden(fmt) then (low, x) else Lift(fmt, 2 * low, x - 1)
  }

  /** The exponent shifted into place, with the fraction and the sign. */
  function Compose(fmt: Format, fraction: nat, x: nat, negative: bool): int
  {
    fraction + x * Hidden(fmt) + if negative then SignBit(fmt) else 0
  }

  /** The shifts that take the exponent from `x` to `e`, and then into place, are defined: the
      fraction does not reach the sign, and the exponent is not negative and does not either. */
  predicate ShiftsDefined(fmt: Format, frac: int, x: int, e: int)
    requires e <= x
  {
    0 <= e < Pow2(fmt.expBits) && (if frac < 0 then -frac else frac) * Pow2(x - e) < SignBit(fmt)
  }

  /** The bits of the magnitude up to the hidden one. */
  function LowBits(fmt: Format, frac: int): (low: nat)
    ensures low < 2 * Hidden(fmt)
  {
    (if frac < 0 then -frac else frac) % (2 * Hidden(fmt))
  }

  lemma MagnitudeBits(fmt: Format, frac: int)
    ensures LowBits(fmt, if frac < 0 then -frac else frac) == LowBits(fmt, frac)
  {
    hide Hidden;
  }

  lemma AreLowBits(fmt: Format, frac: int)
    requires 0 - 2 * Hidden(fmt) < frac < 2 * Hidden(fmt)
    ensures LowBits(fmt, frac) == if frac < 0 then -frac else frac
  {
    SmallMod(if frac < 0 then -frac else frac, 2 * Hidden(fmt));
  }

  /** None when the exponent overflows, a shift is not defined, or the shifting never ends. */
  function Recomposition(fmt: Format, frac: int, x: int): Option<int>
  {
    if fmt.zeroCase && frac == 0 then Some(0)
    else if x + fmt.bias >= TWO_TO_31 then None
    else
      var low := LowBits(fmt, frac);
      if low == 0 then None
      else
        var (lifted, e) := Lift(fmt, low, x + fmt.bias);
        if ShiftsDefined(fmt, frac, x + fmt.bias, e) then Some(Compose(fmt, lifted - Hidden(fmt), e, frac < 0)) else None
  }

  /** A loop that never ends is left out of the method: `LoopEndsIff` says when that is. What is
      not defined is found out when it is over. */
  method Recompose(fmt: Format, frac: int, x: int) returns (w: Option<int>)
    requires IsFormat(fmt) && Within(frac, FracType(fmt).lo, FracType(fmt).hi)
    ensures w == Recomposition(fmt, frac, x)
  {
    hide LowBits, Lift, Compose, Hidden, HasHidden, SignBit;
    MagnitudeBits(fmt, frac);
    if fmt.zeroCase && frac == 0 {
      return Some(0);
    }
    if x + fmt.bias >= TWO_TO_31 {
      return None;
    }
    var a, e: int := frac, x + fmt.bias;
    var negative := false;
    if a < 0 {
      negative := true;
      a := -a;
    }
    if LowBits(fmt, a) == 0 {
      return None;
    }
    var lifted, placed := ShiftUp(fmt, a, e);
    if !ShiftsDefined(fmt, frac, e, placed) {
      return None;
    }
    return Some(Compose(fmt, lifted % Hidden(fmt), placed, negative));
  }

  /** The loop that shifts until the hidden bit is in place; what is shifted out is lost. */
  method ShiftUp(fmt: Format, frac: nat, x: int) returns (a: nat, e: int)
    requires LowBits(fmt, frac) > 0
    ensures e <= x && HasHidden(fmt, a) && (Hidden(fmt) + a % Hidden(fmt), e) == Lift(fmt, LowBits(fmt, frac), x)
  {
    a, e := frac, x;
    while !HasHidden(fmt, a)
      invariant 0 <= a && LowBits(fmt, a) > 0
      invariant Lift(fmt, LowBits(fmt, a), e) == Lift(fmt, LowBits(fmt, frac), x)
      decreases 2 * Hidden(fmt) - LowBits(fmt, a)
    {
      hide HasHidden, LowBits, Hidden, ShiftOnce;
      HiddenIff(fmt, a);
      ShiftedLow(fmt, a);
      e := e - 1;
      a := ShiftOnce(fmt, a);
    }
    HiddenIff(fmt, a);
  }

  lemma HiddenIff(fmt: Format, a: nat)
    ensures HasHidden(fmt, a) <==> LowBits(fmt, a) >= Hidden(fmt)
    ensures HasHidden(fmt, a) ==> Fraction(fmt, a) == LowBits(fmt, a) - Hidden(fmt)
  {
    hide HasHidden, LowBits, Hidden, Fraction;
    var q := AboveLowBits(fmt, a);
    HiddenParts(fmt, a, q, LowBits(fmt, a));
  }

  lemma AboveLowBits(fmt: Format, a: nat) returns (q: nat)
    ensures a == q * (2 * Hidden(fmt)) + LowBits(fmt, a)
  {
    hide Hidden;
    q := Remainder(a, 2 * Hidden(fmt));
  }

  lemma HiddenParts(fmt: Format, a: nat, q: nat, r: nat)
    requires a == q * (2 * Hidden(fmt)) + r && r < 2 * Hidden(fmt)
    ensures HasHidden(fmt, a) <==> r >= Hidden(fmt)
    ensures r >= Hidden(fmt) ==> Fraction(fmt, a) == r - Hidden(fmt)
  {
    hide Hidden;
    var m := Hidden(fmt);
    MulSwap(q, 2, m);
    if r >= m {
      MulSplit(q * 2, 1, m);
      QuotientOf(a, m, q * 2 + 1, r - m);
    } else {
      QuotientOf(a, m, q * 2, r);
    }
  }

  lemma ShiftedLow(fmt: Format, a: nat)
    requires LowBits(fmt, a) < Hidden(fmt)
    ensures LowBits(fmt, ShiftOnce(fmt, a)) == 2 * LowBits(fmt, a)
  {
    SignBitIs(fmt);
    hide Hidden, SignBit, Pow2;
    ShiftLow(a, Hidden(fmt), Pow2(fmt.expBits));
  }

  lemma ShiftLow(a: nat, m: nat, e: nat)
    requires m >= 1 && e >= 1 && a % (2 * m) < m
    ensures a * 2 % (2 * (m * e)) % (2 * m) == 2 * (a % (2 * m))
  {
    var n := 2 * m;
    var q, r := a / n, a % n;
    var top, s := a * 2 / (n * e), a * 2 % (n * e);
    assert n * e == 2 * (m * e);
    assert a == q * n + r && a * 2 == top * (n * e) + s;
    assert top * (n * e) == (top * e) * n;
    assert s == (2 * q - top * e) * n + 2 * r by {
      MulSplit(2 * q - top * e, top * e, n);
      MulSwap(2, q, n);
    }
    var d := 2 * q - top * e;
    if d < 0 {
      MulAtMost(d, -1, n);
    }
    QuotientOf(s, n, d, 2 * r);
  }

  // ---------------------------------------------------------------- round trip of bit patterns

  /** Shifting up undoes making odd. */
  lemma {:induction false} LiftStrip(fmt: Format, base: nat, x: int)
    requires 0 < base < 2 * Hidden(fmt)
    ensures var (odd, e) := Strip(base, x); odd <= base && Lift(fmt, odd, e) == Lift(fmt, base, x)
    decreases base
  {
    if base % 2 == 0 {
      LiftStrip(fmt, base / 2, x + 1);
      assert 2 * (base / 2) == base;
    }
  }

  lemma ComposeParts(fmt: Format, w: nat)
    requires w < 2 * SignBit(fmt)
    ensures Compose(fmt, Fraction(fmt, w), Exponent(fmt, w), w >= SignBit(fmt)) == w
  {
    PartsOf(fmt, w);
    SignBitIs(fmt);
    hide Fraction, Exponent, Hidden, SignBit, Pow2;
  }

  /** Lifting a stripped fraction needs no shift that is not defined. */
  lemma StrippedShifts(fmt: Format, base: nat, x: nat, negative: bool)
    requires IsFormat(fmt) && 0 < base < 2 * Hidden(fmt) && x < Pow2(fmt.expBits)
    ensures var (odd, e) := Strip(base, x);
            x <= e && ShiftsDefined(fmt, if negative then 0 - odd else odd, e, x)
  {
    FormatSizes();
    StripKeepsValue(base, x);
  }

  /** Every bit pattern comes back: zeros, subnormals, infinities and NaNs, too. Only where
      recomposing has no case for zero, the pattern of +0 does not. */
  lemma BitsRoundTrip(fmt: Format, w: nat)
    requires IsFormat(fmt) && w < 2 * SignBit(fmt)
    ensures var d := Decomposition(fmt, w);
            Recomposition(fmt, d.frac, d.x) == if w == 0 && !fmt.zeroCase then None else Some(w)
  {
    hide Strip, Lift, Fraction, Exponent, Hidden, SignBit, Compose, LowBits, Recomposition, Decomposition;
    if w > 0 {
      NonZeroRoundTrip(fmt, w);
    } else {
      ZeroRoundTrip(fmt);
    }
  }

  /** What an odd fraction recomposes to, once it is known where lifting takes it. */
  lemma RecomposeOdd(fmt: Format, d: Decomposed, odd: nat, e: int, negative: bool, fraction: nat, x: nat)
    requires 0 < odd < 2 * Hidden(fmt) && x <= e < TWO_TO_31 && Lift(fmt, odd, e) == (fraction + Hidden(fmt), x)
    requires d == Decomposed(if negative then 0 - odd else odd, e - fmt.bias) && ShiftsDefined(fmt, d.frac, e, x)
    ensures Recomposition(fmt, d.frac, d.x) == Some(Compose(fmt, fraction, x, negative))
  {
    AreLowBits(fmt, d.frac);
    hide Lift, Compose, LowBits, Hidden, ShiftsDefined;
  }

  lemma DecomposedTo(fmt: Format, w: nat, negative: bool, odd: nat, e: int)
    requires IsFormat(fmt) && 0 < w < 2 * SignBit(fmt) && negative == (w >= SignBit(fmt))
    requires Strip(Fraction(fmt, w) + Hidden(fmt), Exponent(fmt, w)) == (odd, e)
    ensures Decomposition(fmt, w) == Decomposed(if negative then 0 - odd else odd, e - fmt.bias)
    ensures Exponent(fmt, w) <= e < TWO_TO_31 && 0 < odd < 2 * Hidden(fmt)
    ensures ShiftsDefined(fmt, Decomposition(fmt, w).frac, e, Exponent(fmt, w))
    ensures Lift(fmt, odd, e) == (Fraction(fmt, w) + Hidden(fmt), Exponent(fmt, w))
  {
    var base, x := Fraction(fmt, w) + Hidden(fmt), Exponent(fmt, w);
    hide Strip, Lift, Fraction, Exponent, Hidden, SignBit, ShiftsDefined;
    DecompositionFits(fmt, w);
    LiftStrip(fmt, base, x);
    LiftBase(fmt, base, x);
    StrippedShifts(fmt, base, x, negative);
  }

  lemma NonZeroRoundTrip(fmt: Format, w: nat)
    requires IsFormat(fmt) && 0 < w < 2 * SignBit(fmt)
    ensures var d := Decomposition(fmt, w); Recomposition(fmt, d.frac, d.x) == Some(w)
  {
    hide Strip, Lift, Fraction, Exponent, Hidden, SignBit, Compose, ShiftsDefined, Recomposition, Decomposition, IsFormat;
    var negative, stripped := w >= SignBit(fmt), Strip(Fraction(fmt, w) + Hidden(fmt), Exponent(fmt, w));
    DecomposedTo(fmt, w, negative, stripped.0, stripped.1);
    RecomposeOdd(fmt, Decomposition(fmt, w), stripped.0, stripped.1, negative, Fraction(fmt, w), Exponent(fmt, w));
    ComposeParts(fmt, w);
  }

  lemma ZeroRoundTrip(fmt: Format)
    ensures Decomposition(fmt, 0) == Decomposed(0, 0)
    ensures IsFormat(fmt) ==> Recomposition(fmt, 0, 0) == if fmt.zeroCase then Some(0) else None
  {
    hide Lift, Compose, LowBits, ShiftsDefined;
    AreLowBits(fmt, 0);
  }

  lemma LiftBase(fmt: Format, base: nat, x: int)
    requires Hidden(fmt) <= base < 2 * Hidden(fmt)
    ensures Lift(fmt, base, x) == (base, x)
  {
  }

  // ---------------------------------------------------------------- the loop that may not end

  /** `a` after `n` rounds of the recomposing loop. */
  function Shifts(fmt: Format, a: nat, n: nat): nat
    decreases n
  {
    if n == 0 then a else Shifts(fmt, ShiftOnce(fmt, a), n - 1)
  }

  /** The loop ends if and only if there is a bit to shift into place. */
  lemma {:induction false} LoopEndsIff(fmt: Format, a: nat)
    ensures (exists n: nat :: HasHidden(fmt, Shifts(fmt, a, n))) <==> LowBits(fmt, a) != 0
  {
    hide HasHidden, Shifts;
    if LowBits(fmt, a) != 0 {
      var n := RoundsNeeded(fmt, a);
      assert HasHidden(fmt, Shifts(fmt, a, n));
    } else {
      forall n: nat ensures !HasHidden(fmt, Shifts(fmt, a, n)) {
        NeverThere(fmt, a, n);
      }
    }
  }

  lemma {:induction false} RoundsNeeded(fmt: Format, a: nat) returns (n: nat)
    requires LowBits(fmt, a) != 0
    ensures HasHidden(fmt, Shifts(fmt, a, n))
    decreases 2 * Hidden(fmt) - LowBits(fmt, a)
  {
    HiddenIff(fmt, a);
    if HasHidden(fmt, a) {
      n := 0;
    } else {
      ShiftedLow(fmt, a);
      var m := RoundsNeeded(fmt, ShiftOnce(fmt, a));
      n := m + 1;
    }
  }

  lemma {:induction false} NeverThere(fmt: Format, a: nat, n: nat)
    requires LowBits(fmt, a) == 0
    ensures !HasHidden(fmt, Shifts(fmt, a, n))
    decreases n
  {
    HiddenIff(fmt, a);
    if n > 0 {
      ShiftedLow(fmt, a);
      NeverThere(fmt, ShiftOnce(fmt, a), n - 1);
    }
  }

  // ---------------------------------------------------------------- the number the text denotes

  lemma {:induction false} StripKeepsValue(base: nat, x: int)
    requires base > 0
    ensures var (odd, e) := Strip(base, x); e >= x && odd * Pow2(e - x) == base
    decreases base
  {
    if base % 2 == 0 {
      StripKeepsValue(base / 2, x + 1);
      var (odd, e) := Strip(base / 2, x + 1);
      assert Pow2(e - x) == 2 * Pow2(e - x - 1);
      MulSwap(odd, 2, Pow2(e - x - 1));
      assert odd * 2 * Pow2(e - x - 1) == 2 * (odd * Pow2(e - x - 1));
    } else {
      assert Pow2(0) == 1;
    }
  }

  /** The exponent bias of section 3.4, and what is added for the bits of the fraction: every finite
      value is a multiple of 2 to the power of -Unit. */
  function Unit(fmt: Format): (u: int)
    requires 1 <= fmt.expBits
  {
    Pow2(fmt.expBits - 1) - 1 + fmt.fracBits
  }

  /** The bias of the source is that of the standard. */
  lemma UnitIsBias(fmt: Format)
    requires IsFormat(fmt)
    ensures Unit(fmt) == fmt.bias
  {
    TwoToThe();
    assert Pow2(10) == 2 * (2 * (2 * Pow2(7)));
  }

  /** The magnitude of a finite bit pattern, as a multiple of that: of a normal number it is the
      fraction and the hidden bit, times 2 to the power of the exponent less the bias; without a
      hidden bit for zero and the subnormals. */
  function Magnitude(fmt: Format, w: nat): nat
  {
    if Exponent(fmt, w) == 0 then 2 * Fraction(fmt, w)
    else (Fraction(fmt, w) + Hidden(fmt)) * Pow2(Exponent(fmt, w))
  }

  /** What the text denotes, in the same unit. */
  ghost predicate Denotes(fmt: Format, d: Decomposed, negative: bool, magnitude: nat)
    requires 1 <= fmt.expBits
  {
    d.x + Unit(fmt) >= 0 && d.frac * Pow2(d.x + Unit(fmt)) == if negative then -(magnitude as int) else magnitude
  }

  predicate IsFinite(fmt: Format, w: nat)
  {
    Exponent(fmt, w) < Pow2(fmt.expBits) - 1
  }

  lemma StrippedValue(base: nat, x: nat)
    requires base > 0
    ensures var (odd, e) := Strip(base, x);
            e >= x && odd * Pow2(e) == base * Pow2(x) && (0 - odd) * Pow2(e) == -(base * Pow2(x))
  {
    StripKeepsValue(base, x);
    var (odd, e) := Strip(base, x);
    Pow2Add(e - x, x);
    hide Pow2, Strip;
    MulSwap(odd, Pow2(e - x), Pow2(x));
    MulSplit(0 - odd, odd, Pow2(e));
  }

  lemma ZeroParts(fmt: Format)
    ensures Fraction(fmt, 0) == 0 && Exponent(fmt, 0) == 0 && SignBit(fmt) > 0
  {
    SmallMod(0, Hidden(fmt));
    SmallMod(0, Pow2(fmt.expBits));
    QuotientOf(0, Hidden(fmt), 0, 0);
  }

  /** The text of a finite number denotes its value exactly if it is +0 or a normal number;
      the text of -0 and of a subnormal counts a hidden bit that the number has not. */
  lemma TextIsValueIff(fmt: Format, w: nat)
    requires IsFormat(fmt) && w < 2 * SignBit(fmt) && IsFinite(fmt, w)
    ensures Denotes(fmt, Decomposition(fmt, w), w >= SignBit(fmt), Magnitude(fmt, w)) <==> (w == 0 || Exponent(fmt, w) > 0)
  {
    hide Denotes, Decomposition, Magnitude, IsFinite, Exponent, SignBit, Unit;
    UnitIsBias(fmt);
    TextIsValueWithBias(fmt, w);
  }

  lemma TextIsValueWithBias(fmt: Format, w: nat)
    requires 1 <= fmt.expBits && fmt.bias == Unit(fmt) && w < 2 * SignBit(fmt) && IsFinite(fmt, w)
    ensures Denotes(fmt, Decomposition(fmt, w), w >= SignBit(fmt), Magnitude(fmt, w)) <==> (w == 0 || Exponent(fmt, w) > 0)
  {
    hide Fraction, Exponent, Hidden, SignBit, Strip, Unit;
    if w > 0 {
      StrippedValue(Fraction(fmt, w) + Hidden(fmt), Exponent(fmt, w));
      assert Pow2(0) == 1;
      hide Pow2;
    } else {
      ZeroParts(fmt);
    }
  }

  // ---------------------------------------------------------------- text

  function TextOf(d: Decomposed): (s: string)
    ensures |s| >= 1
  {
    IntText(d.frac) + if d.x == 0 then "" else "^" + IntText(d.x)
  }

  /** rdxDecomposedToString. */
  method DecomposedToString(out: array<char>, frac: int, x: int) returns (nChars: nat)
    requires IsMachineInt(frac) && IsMachineInt(x) && |TextOf(Decomposed(frac, x))| + 1 <= out.Length
    modifies out
    ensures nChars == |TextOf(Decomposed(frac, x))|
    ensures out[..nChars + 1] == TextOf(Decomposed(frac, x)) + "\0"
  {
    hide IntText, WithText;
    ghost var was := out[..];
    nChars := IntToString(out, 0, frac);
    TextThen(was, 0, IntText(frac), "\0");
    if x != 0 {
      ghost var first := out[..nChars];
      out[nChars] := '^';
      nChars := nChars + 1;
      was := out[..];
      assert was[..nChars] == first + "^";
      var n := IntToString(out, nChars, x);
      TextThen(was, nChars, IntText(x), "\0");
      nChars := nChars + n;
    }
    out[nChars] := '\0';
  }

  lemma TextThen(was: string, at: nat, a: string, b: string)
    requires at + |a| + |b| <= |was|
    ensures WithText(was, at, a + b)[..at + |a|] == was[..at] + a
  {
  }

  /** The fraction, and the exponent if there is one. */
  function ParseText(fmt: Format, s: string): (r: Option<Decomposed>)
    requires IsFormat(fmt) && IsCString(s)
    ensures r.Some? ==> Within(r.value.frac, FracType(fmt).lo, FracType(fmt).hi)
  {
    var frac :- ParseInt(s, 0, FracType(fmt));
    if s[frac.next] == '^' then
      var x :- ParseInt(s, frac.next + 1, EXPONENT_TYPE);
      Some(Decomposed(frac.value, x.value))
    else Some(Decomposed(frac.value, 0))
  }

  /** rdxDecomposeString; None where an integer does not fit its type. */
  method DecomposeString(fmt: Format, s: string) returns (d: Option<Decomposed>)
    requires IsFormat(fmt) && IsCString(s)
    ensures d == ParseText(fmt, s)
  {
    var frac :- AToLL(s, 0, FracType(fmt));
    var str := frac.next;
    if s[str] == '^' {
      str := str + 1;
      var x :- AToLL(s, str, EXPONENT_TYPE);
      return Some(Decomposed(frac.value, x.value));
    }
    return Some(Decomposed(frac.value, 0));
  }

  lemma FormatSizes()
    ensures Hidden(FLOAT) == 0x80_0000 && Pow2(8) == 256 && SignBit(FLOAT) == FLOAT.fracLimit
    ensures Hidden(DOUBLE) == 0x10_0000_0000_0000 && Pow2(11) == 2048 && SignBit(DOUBLE) == DOUBLE.fracLimit
  {
    TwoToThe();
    assert Pow2(8) == 2 * Pow2(7) && Pow2(11) == 2 * (2 * (2 * Pow2(8)));
    Pow2Add(8, 8);
    Pow2Add(16, 7);
    Pow2Add(23, 8);
    Pow2Add(52, 11);
    Pow2Add(26, 26);
    Pow2Add(13, 13);
    assert Pow2(13) == 2 * (2 * Pow2(11));
  }

  lemma StripFits(base: nat, x: int, k: nat)
    requires 0 < base < Pow2(k + 1)
    ensures var (odd, e) := Strip(base, x); odd <= base && x <= e <= x + k
  {
    StripKeepsValue(base, x);
    var (odd, e) := Strip(base, x);
    MulAtMost(1, odd, Pow2(e - x));
    MulAtMost(1, Pow2(e - x), odd);
    if e - x > k {
      Pow2Monotone(k + 1, e - x);
    }
  }

  lemma HiddenNext(fmt: Format)
    ensures Pow2(fmt.fracBits + 1) == 2 * Hidden(fmt)
  {
  }

  /** Fraction and exponent of every bit pattern fit the integer types that hold them. */
  lemma DecompositionFits(fmt: Format, w: nat)
    requires IsFormat(fmt) && w < 2 * SignBit(fmt)
    ensures var d := Decomposition(fmt, w);
            -fmt.fracLimit < d.frac < fmt.fracLimit && -TWO_TO_31 <= d.x < TWO_TO_31 - fmt.bias && IsMachineInt(d.frac) && IsMachineInt(d.x)
  {
    hide Fraction, Exponent, Hidden, Strip, SignBit;
    FormatSizes();
    if w > 0 {
      HiddenNext(fmt);
      StripFits(Fraction(fmt, w) + Hidden(fmt), Exponent(fmt, w), fmt.fracBits);
    }
  }

  // ---------------------------------------------------------------- the codec

  function EncodeText(fmt: Format, w: nat): string
  {
    TextOf(Decomposition(fmt, w))
  }

  function DecodeText(fmt: Format, s: string): Option<int>
    requires IsFormat(fmt) && IsCString(s)
  {
    var d :- ParseText(fmt, s);
    Recomposition(fmt, d.frac, d.x)
  }

  /** rdxEncodeString. */
  method EncodeString(fmt: Format, w: nat, out: array<char>) returns (nChars: nat)
    requires IsFormat(fmt) && w < 2 * SignBit(fmt) && |EncodeText(fmt, w)| + 1 <= out.Length
    modifies out
    ensures nChars == |EncodeText(fmt, w)| && out[..nChars + 1] == EncodeText(fmt, w) + "\0"
  {
    hide SignBit, Hidden, TextOf, Decomposition;
    DecompositionFits(fmt, w);
    var frac, x := Decompose(fmt, w);
    nChars := DecomposedToString(out, frac, x);
  }

  /** rdxDecodeString. */
  method DecodeString(fmt: Format, s: string) returns (w: Option<int>)
    requires IsFormat(fmt) && IsCString(s)
    ensures w == DecodeText(fmt, s)
  {
    hide SignBit, Hidden, Recomposition, ParseText;
    var d :- DecomposeString(fmt, s);
    w := Recompose(fmt, d.frac, d.x);
  }

  /** Every binary32 value and every binary64 value but +0 survives being written as text and
      read again; the text of the binary64 +0 sends the reader into an endless loop. */
  lemma TextRoundTrip(fmt: Format, w: nat, s: string)
    requires IsFormat(fmt) && w < 2 * SignBit(fmt)
    requires IsCString(s) && HasText(s, 0, EncodeText(fmt, w) + "\0")
    ensures DecodeText(fmt, s) == if w == 0 && fmt == DOUBLE then None else Some(w)
  {
    hide SignBit, Hidden, Recomposition, Decomposition, IntText;
    DecompositionFits(fmt, w);
    BitsRoundTrip(fmt, w);
    ParsesBack(fmt, Decomposition(fmt, w), s);
  }

  lemma ParsesBack(fmt: Format, d: Decomposed, s: string)
    requires IsFormat(fmt) && IsCString(s) && HasText(s, 0, TextOf(d) + "\0")
    requires -fmt.fracLimit < d.frac < fmt.fracLimit && -TWO_TO_31 <= d.x < TWO_TO_31
    ensures ParseText(fmt, s) == Some(d)
  {
    hide IntText, ParseInt, HasText;
    var n := |IntText(d.frac)|;
    assert ['\0'] + "" == "\0";
    if d.x == 0 {
      assert TextOf(d) == IntText(d.frac);
      IntReadBack(s, 0, d.frac, FracType(fmt), '\0', "");
    } else {
      assert TextOf(d) + "\0" == IntText(d.frac) + (['^'] + (IntText(d.x) + "\0"));
      IntReadBack(s, 0, d.frac, FracType(fmt), '^', IntText(d.x) + "\0");
      IntReadBack(s, n + 1, d.x, EXPONENT_TYPE, '\0', "");
    }
  }

  /** An integer is read back up to the `end` that follows it. */
  lemma IntReadBack(s: string, at: nat, v: int, t: IntType, end: char, rest: string)
    requires IsCString(s) && HasText(s, at, IntText(v) + ([end] + rest)) && !IsDigit(end) && HasZero(t) && Within(v, t.lo, t.hi)
    ensures at < |s| && ParseInt(s, at, t) == Some(Read(v, at + |IntText(v)|))
    ensures at + |IntText(v)| < |s| && s[at + |IntText(v)|] == end && HasText(s, at + |IntText(v)| + 1, rest)
  {
    hide IntText, ParseInt;
    var next := at + |IntText(v)|;
    HasBoth(s, at, IntText(v), [end] + rest);
    HasBoth(s, next, [end], rest);
    assert s[next] == s[next..next + 1][0];
    IntRoundTrip(s, at, v, t);
  }
}
