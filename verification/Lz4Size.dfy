/** How large a block can be, and which sizes an int can say. */
module Lz4Size {
  import opened Wrappers
  import opened Lz4Format
  import opened Lz4Emit

  const MAX_INT: nat := 0x7FFF_FFFF

  /** The conversion to int: the low 32 bits, as a signed number. */
  function AsInt(n: int): (r: int)
    ensures -0x8000_0000 <= r <= MAX_INT
    ensures -0x8000_0000 <= n <= MAX_INT ==> r == n
    ensures MAX_INT < n < 0x1_0000_0000 ==> r < 0
  {
    (n + 0x8000_0000) % 0x1_0000_0000 - 0x8000_0000
  }

  /** The longest source of which every block has a size that is an int. */
  const MAX_FITTING: nat := 2139095038

  // ---------------------------------------------------------------- at most

  /** The size of a block of literals only. */
  function LiteralSize(n: nat): (r: nat)
    ensures r <= CompressBound(n)
  {
    if n < 15 then 1 + n else 1 + n + (n - 15) / 255 + 1
  }

  lemma ClosingSize(literals: seq<Byte>)
    ensures |EncodeClosing(literals)| == LiteralSize(|literals|)
  {
    hide ExtensionBytes;
  }

  /** Literals in front make no block larger than literals alone would. */
  lemma SizeBehind(size: nat, n: nat, rest: nat)
    requires 255 * size <= 256 * n && n >= 4
    ensures size + LiteralSize(rest) <= LiteralSize(n + rest)
  {
  }

  lemma {:induction false} SequencesSize(ss: seq<Sequence>)
    requires AllEncodable(ss) && Expand(ss).Some?
    ensures 255 * |EncodeSequences(ss)| <= 256 * |Expand(ss).value|
    ensures ss != [] ==> |Expand(ss).value| >= MINMATCH
    decreases |ss|
  {
    hide EncodeSequence, CopyMatch;
    if ss != [] {
      SequencesSize(ss[..|ss| - 1]);
      SequenceSize(ss[|ss| - 1]);
    }
  }

  /** No block is larger than that of the literals alone. */
  lemma {:induction false} BlockSize(bytes: seq<Byte>, data: seq<Byte>)
    requires IsBlockOf(bytes, data)
    ensures 0 < |bytes| <= LiteralSize(|data|)
  {
    hide EncodeSequences, Expand, EncodeClosing, EndsInTime, LiteralSize;
    var ss, literals :| IsBlock(bytes, data, ss, literals);
    SequencesSize(ss);
    ClosingSize(literals);
    NonEmpty(literals);
    if ss != [] {
      SizeBehind(|EncodeSequences(ss)|, |Expand(ss).value|, |literals|);
    } else {
      NoSequences();
    }
  }

  lemma NonEmpty(literals: seq<Byte>)
    ensures |EncodeClosing(literals)| > 0
  {
  }

  lemma NoSequences()
    ensures EncodeSequences([]) == [] && Expand([]) == Some([])
  {
  }

  // ---------------------------------------------------------------- data without a match

  /** The four bytes at `p` are those at `q`. */
  predicate SameFour(data: seq<Byte>, q: nat, p: nat)
    requires q <= p && p + 4 <= |data|
  {
    data[q] == data[p] && data[q + 1] == data[p + 1] && data[q + 2] == data[p + 2] && data[q + 3] == data[p + 3]
  }

  /** No four bytes repeat within the distance of a match. */
  ghost predicate NoRepeats(data: seq<Byte>)
  {
    forall q, p :: 0 <= q < p <= q + MAX_DISTANCE && p + 4 <= |data| ==> !SameFour(data, q, p)
  }

  /** The data begin with what the first sequences expand to. */
  lemma {:induction false} ExpandBegins(ss: seq<Sequence>, i: nat)
    requires i <= |ss| && Expand(ss).Some?
    ensures Expand(ss[..i]).Some? && |Expand(ss[..i]).value| <= |Expand(ss).value|
    ensures Expand(ss).value[..|Expand(ss[..i]).value|] == Expand(ss[..i]).value
    decreases |ss|
  {
    hide CopyMatch;
    if i == |ss| {
      assert ss[..i] == ss;
    } else {
      var front, last := ss[..|ss| - 1], ss[|ss| - 1];
      ExpandBegins(front, i);
      assert front[..i] == ss[..i];
      var n := |Expand(ss[..i]).value|;
      var out := Expand(front).value + last.literals;
      assert Expand(ss).value[..|out|] == out;
      assert Expand(ss).value[..n] == out[..n] == Expand(front).value[..n];
    }
  }

  /** A sequence repeats four bytes. */
  lemma {:induction false} SequenceRepeats(ss: seq<Sequence>, data: seq<Byte>)
    requires ss != [] && Expand(ss).Some? && Expand(ss).value <= data
    ensures !NoRepeats(data)
  {
    hide CopyMatch;
    var first := ss[0];
    ExpandBegins(ss, 1);
    assert ss[..1] == [first] && ss[..1][..0] == [];
    var begin := first.literals;
    assert [] + begin == begin;
    var r := CopyMatch(begin, first.offset, first.matchLength);
    assert Expand([first]) == Some(r);
    CopyMatchRepeats(begin, first.offset, first.matchLength);
    assert data[..|r|] == r;
    var p, q := |begin|, |begin| - first.offset;
    assert forall j :: 0 <= j < |r| ==> data[j] == r[j];
    assert r[p] == r[q] && r[p + 1] == r[q + 1] && r[p + 2] == r[q + 2] && r[p + 3] == r[q + 3];
    assert SameFour(data, q, p);
  }

  /** Without repeats a block is its literals, and so as large as it can be. */
  lemma {:induction false} LargestBlock(bytes: seq<Byte>, data: seq<Byte>)
    requires IsBlockOf(bytes, data) && NoRepeats(data)
    ensures |bytes| == LiteralSize(|data|)
  {
    hide EncodeSequences, Expand, EncodeClosing, EndsInTime, LiteralSize, NoRepeats;
    var ss, literals :| IsBlock(bytes, data, ss, literals);
    if ss != [] {
      SequenceRepeats(ss, data);
    }
    NoSequences();
    ClosingSize(literals);
  }

  /** There is a block for any data. */
  lemma LiteralBlock(data: seq<Byte>)
    ensures IsBlockOf(EncodeClosing(data), data)
  {
    hide EncodeClosing;
    NoSequences();
    assert [] + EncodeClosing(data) == EncodeClosing(data) && [] + data == data;
    assert IsBlock(EncodeClosing(data), data, [], data);
  }

  // ---------------------------------------------------------------- such data

  /** 255 and a counter of two digits below 255, over and over. */
  function CounterByte(i: nat): Byte
  {
    if i % 3 == 0 then 255 else if i % 3 == 1 then i / 3 % 255 else i / 3 / 255 % 255
  }

  function Counter(n: nat): (r: seq<Byte>)
    ensures |r| == n
  {
    seq(n, i requires 0 <= i < n => CounterByte(i))
  }

  /** Two numbers less than 255 * 255 apart differ in one of their last two digits. */
  lemma DigitsDiffer(a: nat, b: nat)
    requires a < b < a + 65025
    ensures a % 255 != b % 255 || a / 255 % 255 != b / 255 % 255
  {
    if a % 255 == b % 255 {
      var x, y := a / 255, b / 255;
      assert 255 * (y - x) == b - a;
      assert 0 < y - x < 255;
    }
  }

  lemma CounterAt(k: nat)
    ensures CounterByte(3 * k) == 255 && CounterByte(3 * k + 1) == k % 255 && CounterByte(3 * k + 2) == k / 255 % 255
  {
  }

  /** Four bytes in a row have a whole counter among them, which says where they are. */
  lemma CounterDiffers(q: nat, p: nat)
    requires q < p <= q + MAX_DISTANCE
    ensures !(CounterByte(q) == CounterByte(p) && CounterByte(q + 1) == CounterByte(p + 1)
              && CounterByte(q + 2) == CounterByte(p + 2) && CounterByte(q + 3) == CounterByte(p + 3))
  {
    hide CounterByte;
    var k, l := q / 3, p / 3;
    CounterAt(k);
    CounterAt(k + 1);
    CounterAt(l);
    CounterAt(l + 1);
    if q % 3 == p % 3 {
      if q % 3 == 2 {
        DigitsDiffer(k + 1, l + 1);
      } else {
        DigitsDiffer(k, l);
      }
    }
  }

  lemma CounterHasNoRepeats(n: nat)
    ensures NoRepeats(Counter(n))
  {
    hide CounterByte;
    var data := Counter(n);
    forall q: nat, p: nat | q < p <= q + MAX_DISTANCE && p + 4 <= |data| ensures !SameFour(data, q, p) {
      CounterDiffers(q, p);
    }
  }

  // ---------------------------------------------------------------- equal bytes

  ghost predicate AllEqual(data: seq<Byte>)
  {
    forall j :: 0 <= j < |data| ==> data[j] == data[0]
  }

  /** The block of equal bytes in which all but the first and the last five are one match takes 10
      bytes and the continued length of the match. */
  lemma {:induction false} SizeOfEqual(bytes: seq<Byte>, data: seq<Byte>)
    requires 14 <= |data| && IsBlockWith(bytes, data, [Sequence([data[0]], 1, |data| - 6)])
    ensures |bytes| == if |data| < 25 then 10 else 11 + (|data| - 25) / 255
  {
    hide LengthBytes;
    var s := Sequence([data[0]], 1, |data| - 6);
    var rest :| IsBlock(bytes, data, [s], rest);
    OneSequence(s);
    LengthBytesIs(|data| - 10);
    assert LengthBytes(1) == [] && LengthBytes(5) == [] by { LengthBytesIs(1); LengthBytesIs(5); }
  }

  lemma OneSequence(s: Sequence)
    requires Encodable(s)
    ensures AllEncodable([s]) && EncodeSequences([s]) == EncodeSequence(s)
    ensures 1 <= s.offset <= |s.literals| ==> Expand([s]).Some? && |Expand([s]).value| == |s.literals| + s.matchLength
  {
    hide CopyMatch, EncodeSequence;
    assert [s][..0] == [];
    assert [] + EncodeSequence(s) == EncodeSequence(s) && [] + s.literals == s.literals;
  }

  lemma LengthBytesIs(n: nat)
    ensures |LengthBytes(n)| == if n < 15 then 0 else 1 + (n - 15) / 255
  {
  }

  // ---------------------------------------------------------------- the sizes that fit

  lemma LiteralSizeFitsIff(n: nat)
    ensures LiteralSize(n) <= MAX_INT <==> n <= MAX_FITTING
  {
  }

  /** Every block of every source of `n` bytes has a size that fits an int, exactly up to
      `MAX_FITTING` bytes. */
  lemma {:induction false} BlocksFitIff(n: nat)
    ensures (forall bytes, data :: IsBlockOf(bytes, data) && |data| == n ==> |bytes| <= MAX_INT) <==> n <= MAX_FITTING
  {
    hide IsBlockOf, LiteralSize, Counter, EncodeClosing;
    LiteralSizeFitsIff(n);
    forall bytes, data | IsBlockOf(bytes, data) && |data| == n ensures |bytes| <= LiteralSize(n) {
      BlockSize(bytes, data);
    }
    var data := Counter(n);
    LiteralBlock(data);
    ClosingSize(data);
  }

  /** However it is compressed, its size is no int. */
  ghost predicate NeverFits(data: seq<Byte>)
  {
    forall bytes :: IsBlockOf(bytes, data) ==> |bytes| > MAX_INT
  }

  /** There is a source of `n` bytes that no compressor can answer a size for, exactly beyond
      `MAX_FITTING` bytes. */
  lemma {:induction false} SomeNeverFitsIff(n: nat)
    ensures (exists data :: |data| == n && NeverFits(data)) <==> n > MAX_FITTING
  {
    hide IsBlockOf, LiteralSize, Counter, EncodeClosing, NoRepeats;
    LiteralSizeFitsIff(n);
    if n > MAX_FITTING {
      var data := Counter(n);
      CounterHasNoRepeats(n);
      forall bytes | IsBlockOf(bytes, data) ensures |bytes| > MAX_INT {
        LargestBlock(bytes, data);
      }
      assert NeverFits(data);
    } else {
      forall data: seq<Byte> | |data| == n ensures !NeverFits(data) {
        LiteralBlock(data);
        ClosingSize(data);
      }
    }
  }
}
