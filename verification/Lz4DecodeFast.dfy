/** LZ4_decompress_generic without checks on the input, as LZ4_decompress_fast uses it: what it
    does in any memory, and that on a block of the format this is decoding. */
module Lz4DecodeFast {
  import opened Wrappers
  import opened Lz4Format
  import opened Lz4Copy
  import opened Lz4Decode
  import opened Lz4Size

  /** How decoding ends: outside the memory at the source or before the output, or, having
      read so many bytes, with a rejection or with the whole output. */
  datatype End = Outside | Rejected(at: nat) | Done(read: nat)

  /** The answer on a rejection; None where even that overflows. */
  function ErrorAnswer(at: nat): (r: Option<int>)
  {
    if AsInt(0 - at) == -0x8000_0000 then None else Some(AsInt(0 - at) - 1)
  }

  /** The answer tells a rejection from a success as long as less than 2 GB were read, and then
      again for every other 2 GB. */
  lemma ErrorIsNegativeIff(at: nat)
    ensures ErrorAnswer(at).Some? && ErrorAnswer(at).value < 0 <==> at % 0x1_0000_0000 < 0x8000_0000
  {
  }

  /** The end of decoding from `ip` on into a buffer of `cap` bytes, `pos` of them written. */
  function EndAt(mem: seq<Byte>, ip: nat, pos: nat, cap: nat): (r: End)
    requires ip <= |mem|
    ensures r.Done? ==> ip < r.read <= |mem|
    decreases |mem| - ip
  {
    if ip == |mem| then Outside
    else match ReadLength(mem, ip + 1, mem[ip] / 16)
      case None => Outside
      case Some((length, p)) =>
        if pos + length + COPYLENGTH > cap then
          if pos + length != cap then Rejected(p) else if p + length > |mem| then Outside else Done(p + length)
        else if p + WildLength(length) > |mem| || p + length + 2 > |mem| then Outside
        else MatchEnd(mem, p + length, mem[ip] % 16, pos + length, cap)
  }

  function MatchEnd(mem: seq<Byte>, q: nat, nibble: nat, pos: nat, cap: nat): (r: End)
    requires q + 2 <= |mem|
    ensures r.Done? ==> q < r.read <= |mem|
    decreases |mem| - q
  {
    match ReadLength(mem, q + 2, nibble)
    case None => Outside
    case Some((ml, next)) =>
      if mem[q] as int + 256 * mem[q + 1] as int > pos then Outside
      else if pos + ml + MINMATCH + LASTLITERALS > cap then Rejected(next)
      else EndAt(mem, next, pos + ml + MINMATCH, cap)
  }

  /** An empty output is decided by the first byte alone. */
  function FastEnd(mem: seq<Byte>, cap: nat): (r: End)
    ensures r.Done? ==> r.read <= |mem|
  {
    if cap == 0 then (if mem == [] then Outside else if mem[0] == 0 then Done(1) else Rejected(0))
    else EndAt(mem, 0, 0, cap)
  }

  /** A literal run that does not end the output, a match too near its end, a block with something
      behind it, and the answers to the first two. */
  lemma FastEndExamples()
    ensures FastEnd([0x40, 1, 2], 10) == Rejected(1) && ErrorAnswer(1) == Some(-2)
    ensures FastEnd([0x1F, 65, 1, 0, 0, 0, 0, 0, 0], 20) == Rejected(5) && ErrorAnswer(5) == Some(-6)
    ensures FastEnd([0x20, 1, 2, 9], 2) == Done(3) && FastEnd([0x20, 1], 2) == Outside
  {
    assert WildLength(1) == 8;
  }

  // ---------------------------------------------------------------- how much is read

  lemma LengthRead(mem: seq<Byte>, ip: nat, nibble: nat)
    requires ip <= |mem| && ReadLength(mem, ip, nibble).Some? && nibble <= 15
    ensures var (length, p) := ReadLength(mem, ip, nibble).value;
            255 * (p - ip) <= length + 240 && (length < 15 ==> p == ip)
  {
  }

  /** Decoding that succeeds has read at most what literals alone would have taken. */
  lemma {:induction false} ReadsAtMost(mem: seq<Byte>, ip: nat, pos: nat, cap: nat)
    requires ip <= |mem| && EndAt(mem, ip, pos, cap).Done?
    ensures 255 * (EndAt(mem, ip, pos, cap).read - ip) <= 256 * (cap - pos) + 495
    decreases |mem| - ip
  {
    hide ReadLength, WildLength;
    LengthRead(mem, ip + 1, mem[ip] / 16);
    var (length, p) := ReadLength(mem, ip + 1, mem[ip] / 16).value;
    if pos + length + COPYLENGTH <= cap {
      var q := p + length;
      LengthRead(mem, q + 2, mem[ip] % 16);
      var (ml, next) := ReadLength(mem, q + 2, mem[ip] % 16).value;
      ReadsAtMost(mem, next, pos + length + ml + MINMATCH, cap);
    }
  }

  lemma {:induction false} FastReadsAtMost(mem: seq<Byte>, cap: nat)
    requires FastEnd(mem, cap).Done?
    ensures 255 * FastEnd(mem, cap).read <= 256 * cap + 495
    ensures cap <= MAX_FITTING ==> FastEnd(mem, cap).read <= MAX_INT
  {
    hide EndAt;
    if cap > 0 {
      ReadsAtMost(mem, 0, 0, cap);
    }
  }

  // ---------------------------------------------------------------- blocks of the format

  /** What is read within the first `c` bytes does not depend on what follows. */
  lemma {:induction false} ExtensionWithin(mem: seq<Byte>, ip: nat, c: nat)
    requires ip <= |mem| && ReadExtension(mem, ip).Some? && ReadExtension(mem, ip).value.1 <= c <= |mem|
    ensures ReadExtension(mem[..c], ip) == ReadExtension(mem, ip)
    decreases |mem| - ip
  {
    if mem[ip] == 255 {
      ExtensionWithin(mem, ip + 1, c);
    }
  }

  lemma LengthWithin(mem: seq<Byte>, ip: nat, nibble: nat, c: nat)
    requires ip <= |mem| && ReadLength(mem, ip, nibble).Some? && ReadLength(mem, ip, nibble).value.1 <= c <= |mem|
    ensures ip <= c && ReadLength(mem[..c], ip, nibble) == ReadLength(mem, ip, nibble)
  {
    if nibble == 15 {
      ExtensionWithin(mem, ip, c);
    }
  }

  lemma {:induction false} ExtensionBeyond(mem: seq<Byte>, ip: nat, c: nat)
    requires ip <= c <= |mem| && ReadExtension(mem[..c], ip).Some?
    ensures ReadExtension(mem, ip) == ReadExtension(mem[..c], ip)
    decreases c - ip
  {
    if mem[ip] == 255 {
      ExtensionBeyond(mem, ip + 1, c);
    }
  }

  lemma LengthBeyond(mem: seq<Byte>, ip: nat, nibble: nat, c: nat)
    requires ip <= c <= |mem| && ReadLength(mem[..c], ip, nibble).Some?
    ensures ReadLength(mem, ip, nibble) == ReadLength(mem[..c], ip, nibble)
  {
    if nibble == 15 {
      ExtensionBeyond(mem, ip, c);
    }
  }

  /** What an item that is a sequence was read from. */
  ghost predicate ReadFrom(src: seq<Byte>, ip: nat, s: Sequence, q: nat, next: nat)
  {
    && |s.literals| <= q && ip < q - |s.literals| && q + 2 <= |src|
    && ReadLength(src, ip + 1, src[ip] / 16) == Some((|s.literals|, q - |s.literals|))
    && s.literals == src[q - |s.literals|..q] && s.offset == src[q] as int + 256 * src[q + 1] as int
    && s.matchLength >= MINMATCH && ReadLength(src, q + 2, src[ip] % 16) == Some((s.matchLength - MINMATCH, next))
  }

  lemma ItemIff(src: seq<Byte>, ip: nat, s: Sequence, q: nat, next: nat)
    requires ip <= |src|
    ensures ReadItem(src, ip) == Next(s, q, next) <==> ReadFrom(src, ip, s, q, next)
  {
    hide ReadLength;
  }

  /** A sequence that is wholly within the first `c` bytes is read alike with and without the rest. */
  lemma ItemWithin(mem: seq<Byte>, ip: nat, s: Sequence, q: nat, next: nat, c: nat)
    requires next <= c <= |mem|
    ensures ReadFrom(mem[..c], ip, s, q, next) <==> ReadFrom(mem, ip, s, q, next)
  {
    hide ReadLength;
    var src := mem[..c];
    if ReadFrom(src, ip, s, q, next) {
      LengthBeyond(mem, ip + 1, src[ip] / 16, c);
      LengthBeyond(mem, q + 2, src[ip] % 16, c);
    }
    if ReadFrom(mem, ip, s, q, next) {
      LengthWithin(mem, ip + 1, mem[ip] / 16, c);
      LengthWithin(mem, q + 2, mem[ip] % 16, c);
      assert src[q - |s.literals|..q] == mem[q - |s.literals|..q];
    }
    assert ReadFrom(src, ip, s, q, next) ==> src[q - |s.literals|..q] == mem[q - |s.literals|..q];
  }

  /** Over a sequence that has room, decoding ends as it does behind it. */
  lemma EndStep(mem: seq<Byte>, ip: nat, pos: nat, cap: nat, s: Sequence, q: nat, next: nat)
    requires ip <= |mem| && next <= |mem| && ReadFrom(mem, ip, s, q, next)
    requires q - |s.literals| + WildLength(|s.literals|) <= |mem| && pos + |s.literals| + COPYLENGTH <= cap
    requires s.offset <= pos + |s.literals| && pos + |s.literals| + s.matchLength + LASTLITERALS <= cap
    ensures EndAt(mem, ip, pos, cap) == EndAt(mem, next, pos + |s.literals| + s.matchLength, cap)
  {
    hide ReadLength, WildLength;
  }

  /** A block that obeys the strict rules for exactly `cap` bytes is read to its end, whatever
      stands behind it. */
  lemma {:induction false} StrictIsFast(mem: seq<Byte>, c: nat, ip: nat, pos: nat, cap: nat)
    requires ip <= c <= |mem| && StrictSize(mem[..c], ip, pos, cap, 0) == Some(cap)
    ensures EndAt(mem, ip, pos, cap) == Done(c)
    decreases c - ip
  {
    hide ReadItem, ReadFrom;
    var src := mem[..c];
    match ReadItem(src, ip) {
      case Malformed =>
      case Closing(literals) =>
        ClosingRead(mem, c, ip, literals);
      case Next(s, q, next) =>
        ItemIff(src, ip, s, q, next);
        ItemWithin(mem, ip, s, q, next, c);
        StrictIsFast(mem, c, next, pos + |s.literals| + s.matchLength, cap);
        FromEarlier(mem, ip, s, q, next);
        EndStep(mem, ip, pos, cap, s, q, next);
    }
  }

  lemma FromEarlier(mem: seq<Byte>, ip: nat, s: Sequence, q: nat, next: nat)
    requires ReadFrom(mem, ip, s, q, next)
    ensures |s.literals| <= q && q + 2 <= next <= |mem|
  {
    hide ReadLength;
  }

  lemma ClosingRead(mem: seq<Byte>, c: nat, ip: nat, literals: seq<Byte>)
    requires ip <= c <= |mem| && ReadItem(mem[..c], ip) == Closing(literals)
    ensures ip < c && |literals| <= c && ReadLength(mem, ip + 1, mem[ip] / 16) == Some((|literals|, c - |literals|))
  {
    hide ReadLength;
    LengthBeyond(mem, ip + 1, mem[ip] / 16, c);
  }

  // ---------------------------------------------------------------- the reference decoder

  /** Decoding from `ip` on is what is left of decoding from the beginning, here and, if it
      reads a block to its end, in the reference decoder. */
  ghost predicate OnFastTrack(mem: seq<Byte>, ip: nat, out: seq<Byte>, cap: nat)
  {
    && ip <= |mem| && |out| <= cap && EndAt(mem, ip, |out|, cap) == EndAt(mem, 0, 0, cap)
    && (EndAt(mem, 0, 0, cap).Done? ==> SameReference(mem[..EndAt(mem, 0, 0, cap).read], ip, out))
  }

  ghost predicate SameReference(src: seq<Byte>, ip: nat, out: seq<Byte>)
  {
    ip <= |src| &&
    (NoZeroOffsets(src, 0) ==> NoZeroOffsets(src, ip) && RefDecode(src, ip, out) == RefDecode(src, 0, []))
  }

  lemma ReferenceStep(src: seq<Byte>, ip: nat, out: seq<Byte>, s: Sequence, q: nat, next: nat, out': seq<Byte>)
    requires SameReference(src, ip, out) && next <= |src| && ReadItem(src, ip) == Next(s, q, next)
    requires s.offset <= |out| + |s.literals|
    requires 1 <= s.offset ==> out' == CopyMatch(out + s.literals, s.offset, s.matchLength)
    ensures SameReference(src, next, out')
  {
    hide ReadItem, CopyMatch;
  }

  lemma FastAdvance(mem: seq<Byte>, ip: nat, out: seq<Byte>, cap: nat, s: Sequence, q: nat, next: nat, out': seq<Byte>)
    requires OnFastTrack(mem, ip, out, cap) && ReadFrom(mem, ip, s, q, next) && next <= |mem|
    requires q - |s.literals| + WildLength(|s.literals|) <= |mem| && |out| + |s.literals| + COPYLENGTH <= cap
    requires s.offset <= |out| + |s.literals| && |out'| == |out| + |s.literals| + s.matchLength
    requires |out'| + LASTLITERALS <= cap
    requires 1 <= s.offset ==> out' == CopyMatch(out + s.literals, s.offset, s.matchLength)
    ensures OnFastTrack(mem, next, out', cap)
  {
    hide ReadFrom, EndAt, WildLength, ReadItem, SameReference, CopyMatch;
    FromEarlier(mem, ip, s, q, next);
    EndStep(mem, ip, |out|, cap, s, q, next);
    if EndAt(mem, 0, 0, cap).Done? {
      var c := EndAt(mem, 0, 0, cap).read;
      var src := mem[..c];
      assert next < c;
      ItemWithin(mem, ip, s, q, next, c);
      SameWithin(src, ip, out);
      ItemIff(src, ip, s, q, next);
      ReferenceStep(src, ip, out, s, q, next, out');
    }
  }

  lemma SameWithin(src: seq<Byte>, ip: nat, out: seq<Byte>)
    requires SameReference(src, ip, out)
    ensures ip <= |src|
  {
  }

  /** The last literals: all the output, and all of the block. */
  lemma FastFinish(mem: seq<Byte>, ip: nat, out: seq<Byte>, cap: nat, length: nat, p: nat)
    requires OnFastTrack(mem, ip, out, cap) && ip < |mem| && ReadLength(mem, ip + 1, mem[ip] / 16) == Some((length, p))
    requires |out| + length == cap && p + length <= |mem|
    ensures EndAt(mem, 0, 0, cap) == Done(p + length)
    ensures NoZeroOffsets(mem[..p + length], 0) ==> RefDecode(mem[..p + length], 0, []) == Some(out + mem[p..p + length])
  {
    hide ReadLength, ReadItem, WildLength, NoZeroOffsets, RefDecode;
    assert EndAt(mem, ip, |out|, cap) == Done(p + length);
    hide EndAt;
    ClosingWithin(mem, ip, length, p);
    ClosingDecodes(mem[..p + length], ip, out, mem[p..p + length]);
  }

  lemma ClosingWithin(mem: seq<Byte>, ip: nat, length: nat, p: nat)
    requires ip < |mem| && ReadLength(mem, ip + 1, mem[ip] / 16) == Some((length, p)) && p + length <= |mem|
    ensures ip <= p + length && ReadItem(mem[..p + length], ip) == Closing(mem[p..p + length])
  {
    hide ReadLength;
    var src := mem[..p + length];
    LengthWithin(mem, ip + 1, mem[ip] / 16, p + length);
    assert src[p..] == mem[p..p + length];
  }

  lemma ClosingDecodes(src: seq<Byte>, ip: nat, out: seq<Byte>, literals: seq<Byte>)
    requires ip <= |src| && ReadItem(src, ip) == Closing(literals)
    ensures RefDecode(src, ip, out) == Some(out + literals)
  {
    hide ReadItem;
  }

  // ---------------------------------------------------------------- the loop

  /** A run length or match length, read without a look at where the input ends; None if it
      runs out of the memory. */
  method ReadUnchecked(mem: seq<Byte>, ip0: nat, nibble: nat) returns (r: Option<(nat, nat)>)
    requires ip0 <= |mem|
    ensures r == ReadLength(mem, ip0, nibble)
  {
    var length: nat, ip: nat := nibble, ip0;
    if length == RUN_MASK {
      var s := 255;
      while s == 255
        invariant ip0 <= ip <= |mem| && (s != 255 ==> ip0 < ip && s == mem[ip - 1])
        invariant forall k :: ip0 <= k < (if s == 255 then ip else ip - 1) ==> mem[k] == 255
        invariant length == 15 + (if s == 255 then 255 * (ip - ip0) else 255 * (ip - 1 - ip0) + s)
        decreases |mem| - ip, s
      {
        ExtensionFrom(mem, ip0, ip);
        if ip == |mem| {
          return None;
        }
        s := mem[ip];
        ip, length := ip + 1, length + s;
      }
      ExtensionFrom(mem, ip0, ip - 1);
    }
    return Some((length, ip));
  }

  /** What the decoder has said when it stops. */
  ghost predicate FastAnswers(mem: seq<Byte>, r: Option<int>, dest: seq<Byte>)
  {
    match EndAt(mem, 0, 0, |dest|)
    case Outside => r == None
    case Rejected(at) => r == ErrorAnswer(at)
    case Done(c) => c <= |mem| && r == Some(AsInt(c)) && (NoZeroOffsets(mem[..c], 0) ==> RefDecode(mem[..c], 0, []) == Some(dest))
  }

  /** One turn of the main loop: it decodes one sequence or stops. */
  method DecodeSequence(mem: seq<Byte>, dest: array<Byte>, ip0: nat, op0: nat)
    returns (stop: bool, r: Option<int>, ip: nat, op: nat)
    requires 0 < dest.Length && op0 <= dest.Length && OnFastTrack(mem, ip0, dest[..op0], dest.Length)
    modifies dest
    ensures op <= dest.Length
    ensures !stop ==> ip0 < ip && OnFastTrack(mem, ip, dest[..op], dest.Length)
    ensures stop ==> FastAnswers(mem, r, dest[..])
  {
    hide ReadLength, RefDecode, NoZeroOffsets;
    ghost var out := dest[..op0];
    var oend := dest.Length;
    ip, op, stop, r := ip0, op0, true, None;
    if ip >= |mem| {
      return;
    }
    var token := mem[ip];
    var run := ReadUnchecked(mem, ip + 1, token / 16);
    if run.None? {
      return;
    }
    var length: nat;
    length, ip := run.value.0, run.value.1;
    var cpy := op + length;
    if cpy + COPYLENGTH > oend {
      if cpy != oend {
        return true, ErrorAnswer(ip), ip, op;
      }
      if ip + length > |mem| {
        return;
      }
      FastFinish(mem, ip0, out, oend, length, ip);
      CopyBytes(mem, ip, dest, op, length);
      assert dest[..] == dest[..op + length];
      ip, op := ip + length, cpy;
      r := Some(AsInt(ip));
      return;
    }
    if ip + WildLength(length) > |mem| || ip + length + 2 > |mem| {
      return;
    }
    stop, r, ip, op := CopySequence(mem, dest, ip0, op, token % 16, length, ip);
  }

  lemma AtMatch(mem: seq<Byte>, ip: nat, out: seq<Byte>, cap: nat, length: nat, p: nat)
    requires OnFastTrack(mem, ip, out, cap) && ip < |mem| && ReadLength(mem, ip + 1, mem[ip] / 16) == Some((length, p))
    requires |out| + length + COPYLENGTH <= cap && p + WildLength(length) <= |mem| && p + length + 2 <= |mem|
    ensures EndAt(mem, 0, 0, cap) == MatchEnd(mem, p + length, mem[ip] % 16, |out| + length, cap)
  {
    hide ReadLength, WildLength, MatchEnd;
  }

  lemma MadeFrom(mem: seq<Byte>, ip: nat, s: Sequence, q: nat, next: nat)
    requires ip < |mem| && |s.literals| <= q && q + 2 <= |mem|
    requires ReadLength(mem, ip + 1, mem[ip] / 16) == Some((|s.literals|, q - |s.literals|))
    requires s.literals == mem[q - |s.literals|..q] && s.offset == mem[q] as int + 256 * mem[q + 1] as int
    requires s.matchLength >= MINMATCH && ReadLength(mem, q + 2, mem[ip] % 16) == Some((s.matchLength - MINMATCH, next))
    ensures ReadFrom(mem, ip, s, q, next)
  {
    hide ReadLength;
  }

  /** The second half of a turn. */
  method CopySequence(mem: seq<Byte>, dest: array<Byte>, ghost ip0: nat, op0: nat, nibble: nat, length: nat, ip1: nat)
    returns (stop: bool, r: Option<int>, ip: nat, op: nat)
    requires op0 <= dest.Length && OnFastTrack(mem, ip0, dest[..op0], dest.Length) && ip0 < |mem| && nibble == mem[ip0] % 16
    requires ip0 < ip1 && ReadLength(mem, ip0 + 1, mem[ip0] / 16) == Some((length, ip1))
    requires op0 + length + COPYLENGTH <= dest.Length && ip1 + WildLength(length) <= |mem| && ip1 + length + 2 <= |mem|
    modifies dest
    ensures op <= dest.Length
    ensures !stop ==> ip0 < ip && OnFastTrack(mem, ip, dest[..op], dest.Length)
    ensures stop ==> FastAnswers(mem, r, dest[..])
  {
    hide ReadLength, RefDecode, NoZeroOffsets, CopyMatch, WildLength, OnFastTrack, EndAt, ReadFrom;
    ghost var out, literals := dest[..op0], mem[ip1..ip1 + length];
    stop, r, op, ip := true, None, op0 + length, ip1 + length;
    ghost var q := ip;
    AtMatch(mem, ip0, out, dest.Length, length, ip1);
    WildCopyFrom(mem, ip1, dest, op0, op);
    assert dest[..op] == out + literals;
    var offset := mem[ip] as int + 256 * mem[ip + 1] as int;
    var run := ReadUnchecked(mem, ip + 2, nibble);
    if run.None? || offset > op {
      return;
    }
    var ml := run.value.0 + MINMATCH;
    ip := run.value.1;
    ghost var s := Sequence(literals, offset, ml);
    MadeFrom(mem, ip0, s, q, ip);
    ghost var before := dest[..op];
    var ok := CopyMatchInto(dest, op, [], offset, ml);
    if !ok {
      return true, ErrorAnswer(ip), ip, op;
    }
    op, stop := op + ml, false;
    assert [] + dest[..op] == dest[..op] && [] + before == before;
    FastAdvance(mem, ip0, out, dest.Length, s, q, ip, dest[..op]);
  }

  /** LZ4_decompress_generic, unchecked, full decoding: in whatever memory it is let loose, it
      reads outside, rejects, or decodes as specified. The answers are converted to int. */
  method DecompressGeneric(mem: seq<Byte>, dest: array<Byte>) returns (r: Option<int>)
    modifies dest
    ensures match FastEnd(mem, dest.Length)
            case Outside => r == None
            case Rejected(at) => r == ErrorAnswer(at)
            case Done(c) => r == Some(AsInt(c)) && (NoZeroOffsets(mem[..c], 0) ==> RefDecode(mem[..c], 0, []) == Some(dest[..]))
  {
    if dest.Length == 0 {
      EmptyOutput(mem, []);
      if mem == [] {
        return None;
      }
      assert mem[0] == 0 ==> mem[..1] == [0];
      assert dest[..] == [] && [] + [] == dest[..];
      return if mem[0] == 0 then Some(1) else Some(-1);
    }
    hide RefDecode, NoZeroOffsets;
    var ip, op, stop := 0, 0, false;
    r := None;
    assert dest[..0] == [];
    while !stop
      invariant 0 <= ip && 0 <= op <= dest.Length
      invariant !stop ==> OnFastTrack(mem, ip, dest[..op], dest.Length)
      invariant stop ==> FastAnswers(mem, r, dest[..])
      decreases !stop, |mem| - ip
    {
      stop, r, ip, op := DecodeSequence(mem, dest, ip, op);
    }
  }
}
