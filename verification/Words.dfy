/** Bytes, powers of two and 64-bit words. */
module Words {

  type Byte = x: int | 0 <= x < 256

  const TWO_TO_31: int := 0x8000_0000
  const TWO_TO_63: int := 0x8000_0000_0000_0000
  const TWO_TO_64: int := 0x1_0000_0000_0000_0000

  function Pow2(k: nat): (p: nat)
    ensures p >= 1
  {
    if k == 0 then 1 else 2 * Pow2(k - 1)
  }

  lemma {:induction false} Pow2Add(a: nat, b: nat)
    ensures Pow2(a + b) == Pow2(a) * Pow2(b)
    decreases b
  {
    if b > 0 {
      Pow2Add(a, b - 1);
      assert Pow2(a + b) == 2 * (Pow2(a) * Pow2(b - 1)) == Pow2(a) * Pow2(b);
    }
  }

  lemma {:induction false} Pow2Monotone(a: nat, b: nat)
    requires a <= b
    ensures Pow2(a) <= Pow2(b)
    decreases b
  {
    if a < b {
      Pow2Monotone(a, b - 1);
    }
  }

  lemma TwoToThe()
    ensures Pow2(7) == 128 && Pow2(31) == TWO_TO_31 && Pow2(62) == 0x4000_0000_0000_0000 && Pow2(63) == TWO_TO_63 && Pow2(64) == TWO_TO_64
  {
    assert Pow2(4) == 16 && Pow2(7) == 2 * (2 * (2 * Pow2(4)));
    Pow2Add(4, 4);
    Pow2Add(8, 8);
    Pow2Add(16, 16);
    Pow2Add(32, 32);
    assert Pow2(64) == 2 * Pow2(63) && Pow2(63) == 2 * Pow2(62) && Pow2(32) == 2 * Pow2(31);
  }

  // ---------------------------------------------------------------- products

  lemma MulAtMost(a: int, b: int, h: nat)
    requires a <= b
    ensures a * h <= b * h
  {
    assert (b - a) * h >= 0;
  }

  lemma MulLess(a: int, b: int, h: nat)
    requires a < b && h >= 1
    ensures a * h < b * h
  {
    MulAtMost(a + 1, b, h);
  }

  lemma MulSplit(a: int, b: int, h: int)
    ensures (a + b) * h == a * h + b * h
  {
  }

  lemma MulSwap(a: int, b: int, h: int)
    ensures (a * b) * h == a * (b * h)
  {
  }

  lemma Remainder(a: nat, h: nat) returns (q: nat)
    requires h >= 1
    ensures a == q * h + a % h
  {
    q := a / h;
  }

  lemma Quotient(q: int, h: nat)
    requires h >= 1
    ensures q * h / h == q
  {
    var d := q * h / h;
    assert d * h <= q * h < (d + 1) * h;
    if d < q {
      MulAtMost(d + 1, q, h);
      assert false;
    } else if d > q {
      MulLess(q, d, h);
      assert false;
    }
  }

  lemma SmallMod(q: nat, e: nat)
    requires q < e
    ensures q % e == q
  {
  }

  /** Quotient and remainder are unique. */
  lemma QuotientOf(a: int, m: nat, q: int, r: nat)
    requires m >= 1 && a == q * m + r && r < m
    ensures a / m == q && a % m == r
  {
    var d := a / m;
    assert d * m <= a < (d + 1) * m;
    if d < q {
      MulAtMost(d + 1, q, m);
    } else if d > q {
      MulAtMost(q + 1, d, m);
      MulSplit(q, 1, m);
    }
  }

  /** Multiples of `m` do not matter modulo `m`. */
  lemma ModShift(a: int, k: int, m: nat)
    requires m >= 1
    ensures (a + k * m) % m == a % m
  {
    var q := a / m;
    assert a == q * m + a % m;
    MulSplit(q, k, m);
    QuotientOf(a + k * m, m, q + k, a % m);
  }

  // ---------------------------------------------------------------- words

  type UInt = w: int | 0 <= w < TWO_TO_64
  type SInt = v: int | -TWO_TO_63 <= v < TWO_TO_63

  /** What is shifted out at the top is lost. */
  function ShiftLeft(w: UInt, n: nat): UInt
    requires n < 64
  {
    w * Pow2(n) % TWO_TO_64
  }

  /** An arithmetic shift: it rounds down. */
  function ShiftRight(v: SInt, n: nat): SInt
    requires n < 64
  {
    DivShrinks(v, Pow2(n));
    v / Pow2(n)
  }

  lemma DivShrinks(v: int, h: nat)
    requires h >= 1
    ensures v >= 0 ==> 0 <= v / h <= v
    ensures v < 0 ==> v <= v / h < 0
  {
    var d := v / h;
    assert d * h <= v < (d + 1) * h;
    if v >= 0 && d < 0 {
      MulAtMost(d + 1, 0, h);
    } else if v >= 0 {
      MulAtMost(1, h, d);
    } else if d >= 0 {
      MulAtMost(0, d, h);
    } else {
      MulAtMost(1, h, -(d + 1));
    }
  }

  /** The 64-bit word `w`, read as a signed number. */
  function ToSigned(w: UInt): (v: SInt)
  {
    if w >= TWO_TO_63 then w - TWO_TO_64 else w
  }
}
