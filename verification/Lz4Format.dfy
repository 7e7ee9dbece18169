/** The LZ4 block format: a byte-by-byte reference decoder, the encoding of one
    sequence, and the end-of-block rules. Everything else about LZ4 in this
    project is proved against the functions of this module. */
module Lz4Format {
  import opened Wrappers
  import Words

  type Byte = Words.Byte

  const MINMATCH: nat := 4
  const LASTLITERALS: nat := 5
  const MFLIMIT: nat := 12
  const MAX_DISTANCE: nat := 65535
  const RUN_MASK: nat := 15
  const ML_MASK: nat := 15

  /** Literals followed by a match: `matchLength` bytes found `offset` bytes back. */
  datatype Sequence = Sequence(literals: seq<Byte>, offset: nat, matchLength: nat)

  /** What the block holds at a position: one more sequence, the closing
      literals (they end exactly at the end of the block), or nothing readable. */
  datatype Item = Malformed | Closing(literals: seq<Byte>) | Next(s: Sequence, matchPos: nat, next: nat)

  // ---------------------------------------------------------------- matches

  /** Appends `len` bytes, each the byte `offset` positions before it. */
  function CopyMatch(out: seq<Byte>, offset: nat, len: nat): (r: seq<Byte>)
    requires 1 <= offset <= |out|
    ensures |r| == |out| + len && r[..|out|] == out
    decreases len
  {
    if len == 0 then out else CopyMatch(out + [out[|out| - offset]], offset, len - 1)
  }

  /** From `n` on, every byte of `r` repeats the byte `offset` before it. */
  ghost predicate Repeats(r: seq<Byte>, n: nat, offset: nat)
    requires offset <= n
  {
    forall j :: n <= j < |r| ==> r[j] == r[j - offset]
  }

  /** Repeating is what characterises the copy of a match: whatever order the
      bytes were written in, a result that repeats is the reference copy. */
  lemma {:induction false} CopyMatchUnique(r: seq<Byte>, out: seq<Byte>, offset: nat)
    requires 1 <= offset <= |out| <= |r|
    requires r[..|out|] == out && Repeats(r, |out|, offset)
    ensures r == CopyMatch(out, offset, |r| - |out|)
    decreases |r| - |out|
  {
    if |r| == |out| {
      assert r == out;
    } else {
      var longer := out + [out[|out| - offset]];
      assert r[..|out| + 1] == longer by {
        assert r[|out|] == r[|out| - offset] == out[|out| - offset];
      }
      CopyMatchUnique(r, longer, offset);
    }
  }

  lemma {:induction false} CopyMatchRepeats(out: seq<Byte>, offset: nat, len: nat)
    requires 1 <= offset <= |out|
    ensures Repeats(CopyMatch(out, offset, len), |out|, offset)
    decreases len
  {
    if len > 0 {
      var longer := out + [out[|out| - offset]];
      CopyMatchRepeats(longer, offset, len - 1);
      var r := CopyMatch(longer, offset, len - 1);
      assert r[..|longer|] == longer;
      assert r[|out|] == longer[|out|] == r[|out| - offset];
    }
  }

  // ---------------------------------------------------------------- reading

  /** A length continued after a nibble of 15: every byte adds its value and
      the first byte other than 255 is the last one. */
  function ReadExtension(src: seq<Byte>, ip: nat): (r: Option<(nat, nat)>)
    requires ip <= |src|
    ensures r.Some? ==> ip < r.value.1 <= |src| && r.value.0 >= 255 * (r.value.1 - ip - 1)
    decreases |src| - ip
  {
    if ip == |src| then None
    else if src[ip] != 255 then Some((src[ip], ip + 1))
    else match ReadExtension(src, ip + 1)
      case None => None
      case Some((v, next)) => Some((255 + v, next))
  }

  function ReadLength(src: seq<Byte>, ip: nat, nibble: nat): (r: Option<(nat, nat)>)
    requires ip <= |src|
    ensures r.Some? ==> ip <= r.value.1 <= |src|
    ensures nibble != 15 ==> r == Some((nibble, ip))
    ensures nibble == 15 && r.Some? ==> r.value.0 >= 15
  {
    if nibble != 15 then Some((nibble, ip))
    else match ReadExtension(src, ip)
      case None => None
      case Some((v, next)) => Some((15 + v, next))
  }

  function ReadItem(src: seq<Byte>, ip: nat): (r: Item)
    requires ip <= |src|
    ensures r.Next? ==> ip < r.matchPos < r.next <= |src| && r.s.matchLength >= MINMATCH
    ensures r.Next? ==> |r.s.literals| < r.matchPos - ip && r.s.offset <= MAX_DISTANCE
  {
    if ip == |src| then Malformed
    else match ReadLength(src, ip + 1, src[ip] / 16)
      case None => Malformed
      case Some((litLength, p)) =>
        if p + litLength > |src| then Malformed
        else if p + litLength == |src| then Closing(src[p..])
        else ReadMatch(src, src[p..p + litLength], p + litLength, src[ip] % 16)
  }

  /** The part of a sequence after its literals: little-endian offset, then the match length. */
  function ReadMatch(src: seq<Byte>, literals: seq<Byte>, q: nat, nibble: nat): (r: Item)
    requires q <= |src|
    ensures r.Next? ==> r.s.literals == literals && r.matchPos == q < r.next <= |src|
    ensures r.Next? ==> r.s.matchLength >= MINMATCH && r.s.offset <= MAX_DISTANCE
    ensures !r.Closing?
  {
    if q + 2 > |src| then Malformed
    else match ReadLength(src, q + 2, nibble)
      case None => Malformed
      case Some((ml, next)) =>
        Next(Sequence(literals, src[q] as int + 256 * src[q + 1] as int, ml + MINMATCH), q, next)
  }

  /** The reference block decoder: decodes `src` from `ip` on, with `out` already
      produced (a dictionary, if any, is the beginning of `out`). */
  function RefDecode(src: seq<Byte>, ip: nat, out: seq<Byte>): Option<seq<Byte>>
    requires ip <= |src|
    decreases |src| - ip
  {
    match ReadItem(src, ip)
    case Malformed => None
    case Closing(literals) => Some(out + literals)
    case Next(s, _, next) =>
      if 1 <= s.offset <= |out| + |s.literals| then
        RefDecode(src, next, CopyMatch(out + s.literals, s.offset, s.matchLength))
      else None
  }

  ghost predicate NoZeroOffsets(src: seq<Byte>, ip: nat)
    requires ip <= |src|
    decreases |src| - ip
  {
    match ReadItem(src, ip)
    case Next(s, _, next) => s.offset != 0 && NoZeroOffsets(src, next)
    case _ => true
  }

  /** The end-of-block restrictions for a sequence whose match begins at output
      position `start` and input position `matchPos`: with room for `cap` bytes the
      match begins MFLIMIT or more bytes before the end and leaves LASTLITERALS
      bytes, and the input goes on long enough after the literals and after a
      continued match length. */
  predicate EndRulesHold(s: Sequence, start: nat, matchPos: nat, next: nat, size: nat, cap: nat)
  {
    && start + MFLIMIT <= cap
    && start + s.matchLength + LASTLITERALS <= cap
    && matchPos + 8 <= size
    && (s.matchLength >= MINMATCH + 15 ==> next + 4 <= size)
  }

  /** How many bytes a decoder that insists on the end-of-block restrictions produces
      from `src` in a buffer of `cap` bytes, `pos` of them already written and `history`
      bytes of dictionary before them; None when it must reject the block. Offset zero
      is not rejected here (nor is it by the safe decoder). */
  function StrictSize(src: seq<Byte>, ip: nat, pos: nat, cap: nat, history: nat): (r: Option<nat>)
    requires ip <= |src|
    ensures r.Some? ==> pos <= r.value <= cap
    decreases |src| - ip
  {
    match ReadItem(src, ip)
    case Malformed => None
    case Closing(literals) => if pos + |literals| <= cap then Some(pos + |literals|) else None
    case Next(s, matchPos, next) =>
      var start := pos + |s.literals|;
      if EndRulesHold(s, start, matchPos, next, |src|, cap) && s.offset <= history + start then
        StrictSize(src, next, start + s.matchLength, cap, history)
      else None
  }

  /** A strictly accepted block without zero offsets is one the reference decodes,
      to exactly as many bytes. */
  lemma {:induction false} StrictIsReference(src: seq<Byte>, ip: nat, out: seq<Byte>, pos: nat, cap: nat)
    requires ip <= |src| && pos <= |out|
    requires StrictSize(src, ip, pos, cap, |out| - pos).Some? && NoZeroOffsets(src, ip)
    ensures RefDecode(src, ip, out).Some?
    ensures |RefDecode(src, ip, out).value| == |out| - pos + StrictSize(src, ip, pos, cap, |out| - pos).value
    decreases |src| - ip
  {
    hide ReadItem, EndRulesHold, CopyMatch;
    match ReadItem(src, ip)
    case Malformed =>
    case Closing(_) =>
    case Next(s, _, next) =>
      StrictIsReference(src, next, CopyMatch(out + s.literals, s.offset, s.matchLength), pos + |s.literals| + s.matchLength, cap);
  }

  // ---------------------------------------------------------------- writing

  /** The continuation bytes of a length, after 15 has been taken off. */
  function ExtensionBytes(n: nat): (r: seq<Byte>)
    ensures |r| == n / 255 + 1
  {
    if n < 255 then [n] else [255] + ExtensionBytes(n - 255)
  }

  function LengthBytes(n: nat): (r: seq<Byte>)
  {
    if n < 15 then [] else ExtensionBytes(n - 15)
  }

  function Nibble(n: nat): (r: nat)
    ensures r < 16
  {
    if n < 15 then n else 15
  }

  predicate Encodable(s: Sequence)
  {
    1 <= s.offset <= MAX_DISTANCE && s.matchLength >= MINMATCH
  }

  function Token(s: Sequence): Byte
    requires s.matchLength >= MINMATCH
  {
    Nibble(|s.literals|) * 16 + Nibble(s.matchLength - MINMATCH)
  }

  /** What follows the literals: offset and match length continuation. */
  function MatchBytes(s: Sequence): seq<Byte>
    requires Encodable(s)
  {
    [s.offset % 256, s.offset / 256] + LengthBytes(s.matchLength - MINMATCH)
  }

  function EncodeSequence(s: Sequence): seq<Byte>
    requires Encodable(s)
  {
    [Token(s)] + LengthBytes(|s.literals|) + s.literals + MatchBytes(s)
  }

  function EncodeClosing(literals: seq<Byte>): seq<Byte>
  {
    [Nibble(|literals|) * 16] + LengthBytes(|literals|) + literals
  }

  function EncodeSequences(ss: seq<Sequence>): seq<Byte>
    requires AllEncodable(ss)
  {
    if ss == [] then []
    else EncodeSequences(ss[..|ss| - 1]) + EncodeSequence(ss[|ss| - 1])
  }

  predicate AllEncodable(ss: seq<Sequence>)
  {
    forall s :: s in ss ==> Encodable(s)
  }

  /** What the sequences decode to; None if one cannot be encoded or reaches back
      before the beginning. */
  function Expand(ss: seq<Sequence>): Option<seq<Byte>>
  {
    if ss == [] then Some([])
    else match Expand(ss[..|ss| - 1])
      case None => None
      case Some(out) =>
        var last := ss[|ss| - 1];
        if Encodable(last) && last.offset <= |out| + |last.literals| then
          Some(CopyMatch(out + last.literals, last.offset, last.matchLength))
        else None
  }

  /** Every match begins MFLIMIT or more bytes before `n` and ends LASTLITERALS or more before it. */
  predicate EndsInTime(ss: seq<Sequence>, n: nat)
    requires Expand(ss).Some?
  {
    ss == [] ||
    var front, last := ss[..|ss| - 1], ss[|ss| - 1];
    && EndsInTime(front, n)
    && |Expand(front).value| + |last.literals| + MFLIMIT <= n
    && |Expand(ss).value| + LASTLITERALS <= n
  }

  /** `bytes` encode exactly `data` as a block that meets the end-of-block restrictions. */
  ghost predicate IsBlockOf(bytes: seq<Byte>, data: seq<Byte>)
  {
    exists ss: seq<Sequence>, literals: seq<Byte> :: IsBlock(bytes, data, ss, literals)
  }

  /** A block with just these sequences. */
  ghost predicate IsBlockWith(bytes: seq<Byte>, data: seq<Byte>, ss: seq<Sequence>)
  {
    exists literals: seq<Byte> :: IsBlock(bytes, data, ss, literals)
  }

  predicate IsBlock(bytes: seq<Byte>, data: seq<Byte>, ss: seq<Sequence>, literals: seq<Byte>)
  {
    && AllEncodable(ss) && bytes == EncodeSequences(ss) + EncodeClosing(literals)
    && Expand(ss).Some? && data == Expand(ss).value + literals
    && EndsInTime(ss, |data|)
  }

  /** The encoding, in bytes. */
  lemma EncodingExamples()
    ensures LengthBytes(14) == [] && LengthBytes(15) == [0] && LengthBytes(269) == [254] && LengthBytes(270) == [255, 0]
    ensures EncodeSequence(Sequence([65], 258, 19)) == [0x1F, 65, 2, 1, 0] && EncodeSequence(Sequence([], 65535, 4)) == [0, 255, 255]
    ensures EncodeClosing([1, 2]) == [0x20, 1, 2]
    ensures forall s: Sequence :: Encodable(s) <==> 1 <= s.offset <= 65535 && 4 <= s.matchLength
  {
  }

  // ---------------------------------------------------------------- reading what was written

  lemma {:induction false} ReadExtensionBytes(src: seq<Byte>, ip: nat, n: nat)
    requires ip + |ExtensionBytes(n)| <= |src|
    requires src[ip..ip + |ExtensionBytes(n)|] == ExtensionBytes(n)
    ensures ReadExtension(src, ip) == Some((n, ip + |ExtensionBytes(n)|))
    decreases n
  {
    var e := ExtensionBytes(n);
    assert src[ip] == src[ip..ip + |e|][0] == e[0];
    if n >= 255 {
      assert src[ip + 1..ip + |e|] == src[ip..ip + |e|][1..] == ExtensionBytes(n - 255);
      ReadExtensionBytes(src, ip + 1, n - 255);
    }
  }

  lemma {:induction false} ReadLengthBytes(src: seq<Byte>, ip: nat, n: nat)
    requires ip + |LengthBytes(n)| <= |src|
    requires src[ip..ip + |LengthBytes(n)|] == LengthBytes(n)
    ensures ReadLength(src, ip, Nibble(n)) == Some((n, ip + |LengthBytes(n)|))
  {
    if n >= 15 {
      ReadExtensionBytes(src, ip, n - 15);
    }
  }

  lemma ReadItemClosing(src: seq<Byte>, ip: nat, p: nat, lits: seq<Byte>)
    requires ip < p <= |src| && src[p..] == lits
    requires ReadLength(src, ip + 1, src[ip] / 16) == Some((|lits|, p))
    ensures ReadItem(src, ip) == Closing(lits)
  {
  }

  /** Where a concatenation is found, so are its parts. */
  lemma SplitFound(src: seq<Byte>, ip: nat, a: seq<Byte>, b: seq<Byte>)
    requires ip + |a + b| <= |src| && src[ip..ip + |a + b|] == a + b
    ensures src[ip..ip + |a|] == a && src[ip + |a|..ip + |a| + |b|] == b
  {
    assert src[ip..ip + |a|] == src[ip..ip + |a + b|][..|a|];
    assert src[ip + |a|..ip + |a| + |b|] == src[ip..ip + |a + b|][|a|..];
  }

  lemma {:induction false} ReadMatchBytes(src: seq<Byte>, q: nat, s: Sequence)
    requires Encodable(s) && q + |MatchBytes(s)| <= |src|
    requires src[q..q + |MatchBytes(s)|] == MatchBytes(s)
    ensures ReadMatch(src, s.literals, q, Nibble(s.matchLength - MINMATCH)) == Next(s, q, q + |MatchBytes(s)|)
  {
    hide ReadLength, LengthBytes, Nibble;
    var offset: seq<Byte> := [s.offset % 256, s.offset / 256];
    var ml := LengthBytes(s.matchLength - MINMATCH);
    SplitFound(src, q, offset, ml);
    assert src[q] == src[q..q + 2][0] && src[q + 1] == src[q..q + 2][1];
    ReadLengthBytes(src, q + 2, s.matchLength - MINMATCH);
  }

  lemma ReadItemLiterals(src: seq<Byte>, ip: nat, p: nat, lits: seq<Byte>)
    requires ip < p <= p + |lits| < |src| && src[p..p + |lits|] == lits
    requires ReadLength(src, ip + 1, src[ip] / 16) == Some((|lits|, p))
    ensures ReadItem(src, ip) == ReadMatch(src, lits, p + |lits|, src[ip] % 16)
  {
  }

  lemma FourFound(src: seq<Byte>, ip: nat, a: seq<Byte>, b: seq<Byte>, c: seq<Byte>, d: seq<Byte>)
    requires ip + |a + b + c + d| <= |src| && src[ip..ip + |a + b + c + d|] == a + b + c + d
    ensures var p := ip + |a|; var q := p + |b|; var r := q + |c|;
            && src[ip..p] == a && src[p..q] == b && src[q..r] == c && src[r..r + |d|] == d
  {
    SplitFound(src, ip, a + b + c, d);
    SplitFound(src, ip, a + b, c);
    SplitFound(src, ip, a, b);
  }

  lemma ReadBackParts(src: seq<Byte>, ip: nat, s: Sequence, p: nat, q: nat)
    requires Encodable(s) && ip + 1 <= p && q == p + |s.literals| && q + |MatchBytes(s)| <= |src|
    requires src[ip] == Token(s) && src[ip + 1..p] == LengthBytes(|s.literals|)
    requires src[p..q] == s.literals && src[q..q + |MatchBytes(s)|] == MatchBytes(s)
    ensures ReadItem(src, ip) == Next(s, q, q + |MatchBytes(s)|)
  {
    hide ReadItem, ReadLength, ReadMatch, LengthBytes, Token;
    TokenNibbles(s);
    ReadLengthBytes(src, ip + 1, |s.literals|);
    ReadItemLiterals(src, ip, p, s.literals);
    ReadMatchBytes(src, q, s);
  }

  /** Reading back one encoded sequence, wherever it stands. */
  lemma {:induction false} ReadEncodedSequence(src: seq<Byte>, ip: nat, s: Sequence)
    requires Encodable(s) && ip + |EncodeSequence(s)| <= |src|
    requires src[ip..ip + |EncodeSequence(s)|] == EncodeSequence(s)
    ensures var next := ip + |EncodeSequence(s)|;
            ReadItem(src, ip) == Next(s, next - |MatchBytes(s)|, next)
  {
    hide ReadItem, MatchBytes, LengthBytes, Token;
    var ext, tail := LengthBytes(|s.literals|), MatchBytes(s);
    FourFound(src, ip, [Token(s)], ext, s.literals, tail);
    assert src[ip] == src[ip..ip + 1][0];
    ReadBackParts(src, ip, s, ip + 1 + |ext|, ip + 1 + |ext| + |s.literals|);
  }

  lemma TokenNibbles(s: Sequence)
    requires s.matchLength >= MINMATCH
    ensures Token(s) / 16 == Nibble(|s.literals|) && Token(s) % 16 == Nibble(s.matchLength - MINMATCH)
  {
  }

  lemma {:induction false} ReadEncodedClosing(src: seq<Byte>, ip: nat, literals: seq<Byte>)
    requires ip <= |src| && src[ip..] == EncodeClosing(literals)
    ensures ReadItem(src, ip) == Closing(literals)
  {
    hide ReadItem, ReadLength, LengthBytes;
    var ext := LengthBytes(|literals|);
    var p := ip + 1 + |ext|;
    var e := EncodeClosing(literals);
    assert src[ip..] == e == [Nibble(|literals|) * 16] + ext + literals + [];
    FourFound(src, ip, [Nibble(|literals|) * 16], ext, literals, []);
    assert src[ip] == src[ip..ip + 1][0];
    ReadLengthBytes(src, ip + 1, |literals|);
    assert src[p..] == literals;
    ReadItemClosing(src, ip, p, literals);
  }

  lemma {:induction false} EncodePrefix(ss: seq<Sequence>, i: nat)
    requires i <= |ss| && AllEncodable(ss)
    ensures AllEncodable(ss[..i]) && |EncodeSequences(ss[..i])| <= |EncodeSequences(ss)|
    ensures EncodeSequences(ss)[..|EncodeSequences(ss[..i])|] == EncodeSequences(ss[..i])
    decreases |ss|
  {
    if i == |ss| {
      assert ss[..i] == ss;
    } else {
      EncodePrefix(ss[..|ss| - 1], i);
      assert ss[..|ss| - 1][..i] == ss[..i];
    }
  }

  lemma {:induction false} ExpandPrefix(ss: seq<Sequence>, i: nat, n: nat)
    requires i <= |ss| && Expand(ss).Some? && EndsInTime(ss, n)
    ensures Expand(ss[..i]).Some? && EndsInTime(ss[..i], n)
    decreases |ss|
  {
    if i == |ss| {
      assert ss[..i] == ss;
    } else {
      ExpandPrefix(ss[..|ss| - 1], i, n);
      assert ss[..|ss| - 1][..i] == ss[..i];
    }
  }

  /** The i-th sequence of an encoded block is read back from its place, with a
      token and at least LASTLITERALS literals still to come. */
  lemma {:induction false} ReadFromBlock(bytes: seq<Byte>, data: seq<Byte>, ss: seq<Sequence>, literals: seq<Byte>, i: nat)
    requires IsBlock(bytes, data, ss, literals) && i < |ss|
    ensures AllEncodable(ss[..i]) && AllEncodable(ss[..i + 1])
    ensures var ip, next := |EncodeSequences(ss[..i])|, |EncodeSequences(ss[..i + 1])|;
            && ip <= next && next + 1 + LASTLITERALS <= |bytes|
            && ReadItem(bytes, ip) == Next(ss[i], next - |MatchBytes(ss[i])|, next)
  {
    hide EncodeSequence, ReadItem, MatchBytes;
    EncodePrefix(ss, i);
    EncodePrefix(ss, i + 1);
    assert ss[..i + 1][..i] == ss[..i] && ss[..i + 1][i] == ss[i];
    var before, e := EncodeSequences(ss[..i]), EncodeSequence(ss[i]);
    assert bytes[..|before + e|] == EncodeSequences(ss)[..|before + e|] == before + e;
    SplitFound(bytes, 0, before, e);
    ReadEncodedSequence(bytes, |before|, ss[i]);
  }

  lemma {:induction false} ExpandStep(ss: seq<Sequence>, i: nat, n: nat)
    requires i < |ss| && Expand(ss).Some? && EndsInTime(ss, n)
    ensures Expand(ss[..i]).Some?
    ensures var out := Expand(ss[..i]).value; var s := ss[i];
            && Encodable(s) && s.offset <= |out| + |s.literals|
            && |out| + |s.literals| + MFLIMIT <= n && |out| + |s.literals| + s.matchLength + LASTLITERALS <= n
            && Expand(ss[..i + 1]) == Some(CopyMatch(out + s.literals, s.offset, s.matchLength))
  {
    ExpandPrefix(ss, i, n);
    ExpandPrefix(ss, i + 1, n);
    assert ss[..i + 1][..i] == ss[..i] && ss[..i + 1][i] == ss[i];
  }

  /** One step of the decoding functions over a sequence that obeys the rules. */
  lemma DecodeStep(src: seq<Byte>, ip: nat, out: seq<Byte>, s: Sequence, matchPos: nat, next: nat, cap: nat)
    requires ip <= |src| && ReadItem(src, ip) == Next(s, matchPos, next)
    requires 1 <= s.offset <= |out| + |s.literals|
    requires EndRulesHold(s, |out| + |s.literals|, matchPos, next, |src|, cap)
    ensures var after := CopyMatch(out + s.literals, s.offset, s.matchLength);
            && RefDecode(src, ip, out) == RefDecode(src, next, after)
            && StrictSize(src, ip, |out|, cap, 0) == StrictSize(src, next, |after|, cap, 0)
            && NoZeroOffsets(src, ip) == NoZeroOffsets(src, next)
  {
    hide ReadItem, EndRulesHold, CopyMatch;
  }

  /** The decoding functions agree about `bytes` from `ip` on, with `out` produced. */
  ghost predicate DecodesTo(bytes: seq<Byte>, ip: nat, out: seq<Byte>, data: seq<Byte>, cap: nat)
  {
    && ip <= |bytes| && NoZeroOffsets(bytes, ip)
    && RefDecode(bytes, ip, out) == Some(data)
    && StrictSize(bytes, ip, |out|, cap, 0) == Some(|data|)
  }

  lemma {:induction false} ClosingStep(bytes: seq<Byte>, ip: nat, out: seq<Byte>, literals: seq<Byte>, cap: nat)
    requires ip <= |bytes| && bytes[ip..] == EncodeClosing(literals) && |out| + |literals| <= cap
    ensures DecodesTo(bytes, ip, out, out + literals, cap)
  {
    ReadEncodedClosing(bytes, ip, literals);
  }

  lemma {:induction false} BlockStep(bytes: seq<Byte>, data: seq<Byte>, ss: seq<Sequence>, literals: seq<Byte>, i: nat, cap: nat)
    requires IsBlock(bytes, data, ss, literals) && i < |ss| && |data| <= cap
    requires AllEncodable(ss[..i]) && Expand(ss[..i]).Some? && AllEncodable(ss[..i + 1]) && Expand(ss[..i + 1]).Some?
    requires DecodesTo(bytes, |EncodeSequences(ss[..i + 1])|, Expand(ss[..i + 1]).value, data, cap)
    ensures DecodesTo(bytes, |EncodeSequences(ss[..i])|, Expand(ss[..i]).value, data, cap)
  {
    ReadFromBlock(bytes, data, ss, literals, i);
    ExpandStep(ss, i, |data|);
    var ip, next := |EncodeSequences(ss[..i])|, |EncodeSequences(ss[..i + 1])|;
    DecodeStep(bytes, ip, Expand(ss[..i]).value, ss[i], next - |MatchBytes(ss[i])|, next, cap);
  }

  /** Decoding an encoded block from its i-th sequence on completes the data. */
  lemma {:induction false} DecodeFrom(bytes: seq<Byte>, data: seq<Byte>, ss: seq<Sequence>, literals: seq<Byte>, i: nat, cap: nat)
    requires IsBlock(bytes, data, ss, literals) && i <= |ss| && |data| <= cap
    ensures AllEncodable(ss[..i]) && Expand(ss[..i]).Some?
    ensures DecodesTo(bytes, |EncodeSequences(ss[..i])|, Expand(ss[..i]).value, data, cap)
    decreases |ss| - i
  {
    if i == |ss| {
      assert ss[..i] == ss;
      ClosingStep(bytes, |EncodeSequences(ss)|, Expand(ss).value, literals, cap);
    } else {
      DecodeFrom(bytes, data, ss, literals, i + 1, cap);
      EncodePrefix(ss, i);
      ExpandPrefix(ss, i, |data|);
      BlockStep(bytes, data, ss, literals, i, cap);
    }
  }

  /** The format round trip: an encoded block is accepted under the end-of-block
      restrictions and decodes to its data. */
  lemma {:induction false} BlockDecodes(bytes: seq<Byte>, data: seq<Byte>, cap: nat)
    requires IsBlockOf(bytes, data) && |data| <= cap
    ensures RefDecode(bytes, 0, []) == Some(data)
    ensures StrictSize(bytes, 0, 0, cap, 0) == Some(|data|) && NoZeroOffsets(bytes, 0)
  {
    var ss, literals :| IsBlock(bytes, data, ss, literals);
    DecodeFrom(bytes, data, ss, literals, 0, cap);
    assert ss[..0] == [];
  }
}
