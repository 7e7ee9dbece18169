/** Integers as decimal text: printed digit by digit, parsed digit by digit, for any integer
    type. */
module NumberText {
  import opened Wrappers
  import opened Words

  // ---------------------------------------------------------------- text

  function Digit(d: nat): char
    requires d < 10
  {
    '0' + d as char
  }

  predicate IsDigit(c: char)
  {
    '0' <= c <= '9'
  }

  function Digits(n: nat): (s: string)
    ensures |s| >= 1
  {
    if n < 10 then [Digit(n)] else Digits(n / 10) + [Digit(n % 10)]
  }

  function IntText(v: int): (s: string)
    ensures |s| >= 1
  {
    if v < 0 then "-" + Digits(-v) else Digits(v)
  }

  /** Every integer type of the source lies within these bounds. */
  predicate IsMachineInt(v: int)
  {
    -TWO_TO_63 <= v < TWO_TO_64
  }

  function Pow10(k: nat): (p: nat)
    ensures p >= 1
  {
    if k == 0 then 1 else 10 * Pow10(k - 1)
  }

  lemma {:induction false} DigitsSize(n: nat, k: nat)
    requires k >= 1 && n < Pow10(k)
    ensures |Digits(n)| <= k
    decreases k
  {
    if n >= 10 {
      DigitsSize(n / 10, k - 1);
    }
  }

  lemma MachineIntSize(v: int)
    requires IsMachineInt(v)
    ensures |Digits(if v < 0 then -v else v)| <= 20
  {
    assert Pow10(5) == 10_0000;
    assert Pow10(10) == 10_0000 * Pow10(5);
    assert Pow10(15) == 10_0000 * Pow10(10);
    assert Pow10(20) == 10_0000 * Pow10(15);
    DigitsSize(if v < 0 then -v else v, 20);
  }

  // ---------------------------------------------------------------- printing

  /** Division and remainder round toward zero. */
  function TruncDiv(a: int, b: int): int
    requires b > 0
  {
    if a < 0 then -(-a / b) else a / b
  }

  function TruncMod(a: int, b: int): int
    requires b > 0
  {
    if a < 0 then -(-a % b) else a % b
  }

  function Reversed(s: string): (r: string)
    ensures |r| == |s| && forall j :: 0 <= j < |s| ==> r[j] == s[|s| - 1 - j]
  {
    seq(|s|, j requires 0 <= j < |s| => s[|s| - 1 - j])
  }

  lemma ReversedMore(s: string, c: char)
    ensures Reversed(s + [c]) == [c] + Reversed(s)
  {
  }

  lemma ReversedNone()
    ensures Reversed("") == ""
  {
  }

  /** `out` with `text` from `at` on. */
  function WithText(out: string, at: nat, text: string): (r: string)
    requires at + |text| <= |out|
    ensures |r| == |out|
  {
    out[..at] + text + out[at + |text|..]
  }

  lemma WithMoreText(out: string, at: nat, a: string, b: string)
    requires at + |a| + |b| <= |out|
    ensures WithText(WithText(out, at, a), at + |a|, b) == WithText(out, at, a + b)
  {
  }

  /** The digits of `v`, last one first, onto `backstack`. */
  method PushDigits(backstack: array<char>, value: int) returns (digits: nat)
    requires backstack.Length == 50 && IsMachineInt(value)
    modifies backstack
    ensures digits <= 50 && Reversed(backstack[..digits]) == Digits(if value < 0 then -value else value)
  {
    hide Reversed;
    var v := value;
    var negative := v < 0;
    ReversedNone();
    ghost var all := Digits(if value < 0 then -value else value);
    MachineIntSize(value);
    digits := 0;
    while true
      invariant (negative ==> v <= 0) && (!negative ==> v >= 0)
      invariant digits + |Digits(if negative then -v else v)| == |all| <= 20
      invariant Digits(if negative then -v else v) + Reversed(backstack[..digits]) == all
      decreases if negative then -v else v
    {
      ghost var n := if negative then -v else v;
      ghost var below := backstack[..digits];
      backstack[digits] := if negative then '0' + (-TruncMod(v, 10)) as char else '0' + TruncMod(v, 10) as char;
      assert backstack[digits] == Digit(n % 10);
      digits := digits + 1;
      v := TruncDiv(v, 10);
      assert backstack[..digits] == below + [Digit(n % 10)];
      ReversedMore(below, Digit(n % 10));
      if v == 0 {
        break;
      }
    }
  }

  method PopDigits(out: array<char>, at: nat, backstack: array<char>, count: nat)
    requires count <= backstack.Length && at + count <= out.Length && out != backstack
    modifies out
    ensures out[..] == WithText(old(out[..]), at, Reversed(backstack[..count]))
  {
    hide WithText;
    ghost var was, text := out[..], Reversed(backstack[..count]);
    var digits, chars := count, 0;
    NoText(was, at);
    while digits > 0
      invariant 0 <= digits <= count && chars == count - digits
      invariant out[..] == WithText(was, at, text[..chars])
    {
      digits := digits - 1;
      OneChar(out[..], at + chars, backstack[digits]);
      WithMoreText(was, at, text[..chars], [backstack[digits]]);
      out[at + chars] := backstack[digits];
      assert text[..chars + 1] == text[..chars] + [backstack[digits]];
      chars := chars + 1;
    }
    assert text[..chars] == text;
  }

  lemma NoText(out: string, at: nat)
    requires at <= |out|
    ensures WithText(out, at, "") == out
  {
  }

  /** Prints `v` and a terminator at `at`. */
  method IntToString(out: array<char>, at: nat, v: int) returns (chars: nat)
    requires IsMachineInt(v) && at + |IntText(v)| + 1 <= out.Length
    modifies out
    ensures chars == |IntText(v)| && out[..] == WithText(old(out[..]), at, IntText(v) + "\0")
  {
    hide WithText, IntText, Digits;
    IntTextIs(v);
    var backstack := new char[50];
    ghost var was := out[..];
    var digits := PushDigits(backstack, v);
    ghost var text := Reversed(backstack[..digits]);
    chars := 0;
    if v < 0 {
      out[at] := '-';
      OneChar(was, at, '-');
      WithMoreText(was, at, "-", text);
      chars := 1;
    }
    PopDigits(out, at + chars, backstack, digits);
    chars := chars + digits;
    ghost var printed := out[..];
    out[at + chars] := '\0';
    OneChar(printed, at + chars, '\0');
    WithMoreText(was, at, IntText(v), "\0");
  }

  lemma IntTextIs(v: int)
    ensures IntText(v) == if v < 0 then "-" + Digits(-v) else Digits(v)
  {
  }

  lemma OneChar(out: string, at: nat, c: char)
    requires at < |out|
    ensures out[at := c] == WithText(out, at, [c])
  {
  }

  // ---------------------------------------------------------------- parsing

  /** A string as C has it: the terminator ends it at the latest. */
  predicate IsCString(s: string)
  {
    |s| >= 1 && s[|s| - 1] == '\0'
  }

  predicate Within(v: int, lo: int, hi: int)
  {
    lo <= v <= hi
  }

  /** Takes in one more digit. */
  function Extend(rv: int, c: char, negative: bool): int
    requires IsDigit(c)
  {
    if negative then rv * 10 - (c - '0') as int else rv * 10 + (c - '0') as int
  }

  /** An integer type. The arithmetic of the signed types of 32 and 64 bits must not overflow;
      in the unsigned types it wraps around, and in the narrow ones the conversion back does. */
  datatype IntType = IntType(lo: int, hi: int, wraps: bool)

  predicate HasZero(t: IntType)
  {
    t.lo <= 0 <= t.hi
  }

  /** `v` modulo the number of values of the type. */
  function Wrapped(t: IntType, v: int): (r: int)
    requires HasZero(t)
    ensures Within(r, t.lo, t.hi)
  {
    t.lo + (v - t.lo) % (t.hi - t.lo + 1)
  }

  /** One digit more after `rv`; None when an intermediate result overflows. */
  function NextValue(t: IntType, rv: int, c: char, negative: bool): (r: Option<int>)
    requires HasZero(t) && IsDigit(c)
    ensures r.Some? ==> Within(r.value, t.lo, t.hi)
  {
    if t.wraps then Some(Wrapped(t, Extend(rv, c, negative)))
    else if Within(rv * 10, t.lo, t.hi) && Within(Extend(rv, c, negative), t.lo, t.hi) then Some(Extend(rv, c, negative))
    else None
  }

  /** The digits from `at` on, after `rv`. */
  function ParseDigits(s: string, at: nat, rv: int, negative: bool, t: IntType): (r: Option<Read<int>>)
    requires IsCString(s) && at < |s| && HasZero(t) && Within(rv, t.lo, t.hi)
    ensures r.Some? ==> at <= r.value.next < |s| && Within(r.value.value, t.lo, t.hi)
    decreases |s| - at
  {
    if !IsDigit(s[at]) then Some(Read(rv, at))
    else
      var next :- NextValue(t, rv, s[at], negative);
      ParseDigits(s, at + 1, next, negative, t)
  }

  function ParseInt(s: string, at: nat, t: IntType): (r: Option<Read<int>>)
    requires IsCString(s) && at < |s| && HasZero(t)
    ensures r.Some? ==> r.value.next < |s| && Within(r.value.value, t.lo, t.hi)
  {
    if s[at] == '-' then ParseDigits(s, at + 1, 0, true, t) else ParseDigits(s, at, 0, false, t)
  }

  method AToLL(s: string, at: nat, t: IntType) returns (r: Option<Read<int>>)
    requires IsCString(s) && at < |s| && HasZero(t)
    ensures r == ParseInt(s, at, t)
  {
    var str := at;
    var negative := false;
    if s[str] == '-' {
      negative := true;
      str := str + 1;
    }
    var rv := 0;
    while IsDigit(s[str])
      invariant str < |s| && Within(rv, t.lo, t.hi)
      invariant ParseInt(s, at, t) == ParseDigits(s, str, rv, negative, t)
      decreases |s| - str
    {
      rv :- NextValue(t, rv, s[str], negative);
      str := str + 1;
    }
    return Some(Read(rv, str));
  }

  // ---------------------------------------------------------------- round trip

  ghost predicate HasText(s: string, at: nat, text: string)
  {
    at + |text| <= |s| && s[at..at + |text|] == text
  }

  lemma HasBoth(s: string, at: nat, a: string, b: string)
    requires HasText(s, at, a + b)
    ensures HasText(s, at, a) && HasText(s, at + |a|, b)
  {
    assert s[at..at + |a|] == (a + b)[..|a|] == a;
    assert s[at + |a|..at + |a| + |b|] == (a + b)[|a|..] == b;
  }

  function Signed(n: nat, negative: bool): int
  {
    if negative then 0 - n else n
  }

  /** What the type makes of `v`: the value modulo its size if it wraps, and otherwise `v`
      itself, if the type holds it. */
  function Stored(t: IntType, v: int): (r: Option<int>)
    requires HasZero(t)
    ensures r.Some? ==> Within(r.value, t.lo, t.hi)
  {
    if t.wraps then Some(Wrapped(t, v)) else if Within(v, t.lo, t.hi) then Some(v) else None
  }

  /** Wrapping around early or late is the same. */
  lemma WrapAgain(t: IntType, v: int, d: int)
    requires HasZero(t)
    ensures Wrapped(t, Wrapped(t, v) * 10 + d) == Wrapped(t, v * 10 + d)
  {
    var m := t.hi - t.lo + 1;
    var q := (v - t.lo) / m;
    assert v - t.lo == q * m + (v - t.lo) % m;
    assert v * 10 + d - t.lo == (Wrapped(t, v) * 10 + d - t.lo) + (10 * q) * m by {
      MulSwap(10, q, m);
    }
    ModShift(Wrapped(t, v) * 10 + d - t.lo, 10 * q, m);
  }

  /** A value that the type holds is stored as it is. */
  lemma StoredExactly(t: IntType, v: int)
    requires HasZero(t) && Within(v, t.lo, t.hi)
    ensures Stored(t, v) == Some(v)
  {
    SmallMod(v - t.lo, t.hi - t.lo + 1);
  }

  /** Taking in the last digit of `n` stores `n`, or fails as it must. */
  lemma NextIsStored(t: IntType, n: nat, negative: bool)
    requires HasZero(t) && Stored(t, Signed(n / 10, negative)).Some?
    ensures NextValue(t, Stored(t, Signed(n / 10, negative)).value, Digit(n % 10), negative) == Stored(t, Signed(n, negative))
  {
    hide Wrapped;
    var v, d := Signed(n / 10, negative), if negative then -(n % 10) else n % 10;
    assert Signed(n, negative) == v * 10 + d && Extend(v, Digit(n % 10), negative) == v * 10 + d;
    if t.wraps {
      WrapAgain(t, v, d);
    }
  }

  /** A value that is too large stays so with a digit more. */
  lemma TooLarge(t: IntType, n: nat, negative: bool)
    requires HasZero(t) && Stored(t, Signed(n / 10, negative)).None?
    ensures Stored(t, Signed(n, negative)).None?
  {
  }

  /** Reading the digits of `n` comes down to having stored `n`: no intermediate result
      overflows unless `n` itself does. */
  lemma {:induction false} DigitsReadBack(s: string, at: nat, n: nat, negative: bool, t: IntType)
    requires IsCString(s) && HasText(s, at, Digits(n)) && at + |Digits(n)| < |s| && HasZero(t)
    ensures var v := Stored(t, Signed(n, negative));
            ParseDigits(s, at, 0, negative, t) ==
              if v.Some? then ParseDigits(s, at + |Digits(n)|, v.value, negative, t) else None
    decreases n
  {
    hide Stored, NextValue;
    var last := at + |Digits(n)| - 1;
    assert s[last] == s[at..at + |Digits(n)|][|Digits(n)| - 1] == Digit(n % 10);
    if n >= 10 {
      HasBoth(s, at, Digits(n / 10), [Digit(n % 10)]);
      DigitsReadBack(s, at, n / 10, negative, t);
    } else {
      StoredExactly(t, 0);
    }
    if Stored(t, Signed(n / 10, negative)).Some? {
      NextIsStored(t, n, negative);
    } else {
      TooLarge(t, n, negative);
    }
  }

  /** What is printed is parsed back, in any type that holds the value, the most negative one
      included; parsing stops behind it. In a type that does not hold the value, the result is
      wrapped around, or an overflow. */
  lemma IntRoundTrip(s: string, at: nat, v: int, t: IntType)
    requires IsCString(s) && HasText(s, at, IntText(v)) && at + |IntText(v)| < |s| && !IsDigit(s[at + |IntText(v)|])
    requires HasZero(t)
    ensures var end := at + |IntText(v)|;
            ParseInt(s, at, t) == if Within(v, t.lo, t.hi) then Some(Read(v, end))
                                  else if t.wraps then Some(Read(Wrapped(t, v), end)) else None
  {
    assert s[at] == s[at..at + |IntText(v)|][0];
    if v < 0 {
      HasBoth(s, at, "-", Digits(-v));
      DigitsReadBack(s, at + 1, -v, true, t);
    } else {
      FirstIsDigit(v);
      DigitsReadBack(s, at, v, false, t);
    }
    if Within(v, t.lo, t.hi) {
      StoredExactly(t, v);
    }
  }

  lemma {:induction false} FirstIsDigit(n: nat)
    ensures IsDigit(Digits(n)[0])
    decreases n
  {
    if n >= 10 {
      FirstIsDigit(n / 10);
    }
  }
}
