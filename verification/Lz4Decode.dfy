/** LZ4_decompress_generic and its entry points, proved against the reference decoder. */
module Lz4Decode {
  import opened Wrappers
  import opened Lz4Format
  import opened Lz4Copy
  import opened Lz4Stop

  /** The decoder's answer for a block in a buffer of `cap` bytes; None for a rejection. */
  ghost function SafeSize(src: seq<Byte>, cap: nat, history: nat): Option<nat>
  {
    if cap == 0 then (if src == [0] then Some(0) else None)
    else StrictSize(src, 0, 0, cap, history)
  }

  /** What the decoder returns when it gives up at input position `ip`. */
  function ErrorAt(ip: nat): (r: int)
    ensures r < 0
  {
    -(ip as int) - 1
  }

  // ---------------------------------------------------------------- lengths

  lemma {:induction false} ExtensionFrom(src: seq<Byte>, start: nat, ip: nat)
    requires start <= ip <= |src| && forall k :: start <= k < ip ==> src[k] == 255
    ensures ReadExtension(src, start) ==
            match ReadExtension(src, ip) case None => None case Some((v, next)) => Some((v + 255 * (ip - start), next))
    decreases ip - start
  {
    if start < ip {
      ExtensionFrom(src, start + 1, ip);
    }
  }

  /** Reads the continuation of a literal length. The checked decoder stops within
      RUN_MASK bytes of the end of the input even after a byte of 255; the length it
      then has runs past the end of the input. None if there is no byte to read. */
  method ReadLiteralLength(mem: seq<Byte>, ip0: nat, iend: nat, token: Byte) returns (length: Option<nat>, ip: nat)
    requires ip0 <= iend + 1 && iend <= |mem|
    ensures length == None <==> token / 16 == 15 && ip0 >= |mem|
    ensures ip0 <= ip && (if length.None? then None else Some((length.value, ip))) == LiteralLength(mem, ip0, iend, token / 16)
    ensures length.Some? ==>
              || (ip0 <= iend && ReadLength(mem[..iend], ip0, token / 16) == Some((length.value, ip)))
              || (ip + length.value > iend && (ip0 <= iend ==>
                    var full := ReadLength(mem[..iend], ip0, token / 16); full.None? || full.value.0 + full.value.1 > iend))
  {
    var sum: nat;
    sum, ip := token / 16, ip0;
    if sum == RUN_MASK {
      if ip >= |mem| {
        return None, ip;
      }
      var s := mem[ip];
      ip, sum := ip + 1, sum + s;
      ghost var src := mem[..iend];
      while ip + RUN_MASK < iend && s == 255
        invariant ip0 < ip <= |mem| && s == mem[ip - 1]
        invariant ip0 < ip - 1 ==> ip <= iend
        invariant sum == 15 + 255 * (ip - 1 - ip0) + s
        invariant LiteralRun(mem, ip0, iend, 15) == LiteralRun(mem, ip - 1, iend, sum - s)
        invariant forall k :: ip0 <= k < ip - 1 ==> mem[k] == 255
        decreases |mem| - ip
      {
        s := mem[ip];
        ip, sum := ip + 1, sum + s;
      }
      if ip <= iend {
        ExtensionFrom(src, ip0, ip - 1);
      }
    }
    length := Some(sum);
  }

  /** Reads the continuation of a match length. The checked decoder refuses to read within
      LASTLITERALS bytes of the end of the input. */
  method ReadMatchLength(mem: seq<Byte>, ip0: nat, iend: nat, nibble: nat) returns (ok: bool, length: nat, ip: nat)
    requires ip0 <= iend <= |mem| && nibble < 16
    ensures ip0 <= ip <= iend && (ok, length, ip) == MatchLength(mem, ip0, iend, nibble)
    ensures ok ==> ReadLength(mem[..iend], ip0, nibble) == Some((length, ip)) && (nibble == 15 ==> ip + 4 <= iend)
    ensures !ok ==> nibble == 15 && var full := ReadLength(mem[..iend], ip0, nibble); full.None? || full.value.1 + 4 > iend
  {
    length, ip := nibble, ip0;
    ok := true;
    if length == ML_MASK {
      var s := 255;
      ghost var src := mem[..iend];
      while s == 255
        invariant ip0 <= ip <= iend && (s == 255 || (ip0 < ip && s == mem[ip - 1]))
        invariant forall k :: ip0 <= k < (if s == 255 then ip else ip - 1) ==> mem[k] == 255
        invariant length == 15 + (if s == 255 then 255 * (ip - ip0) else 255 * (ip - 1 - ip0) + s)
        invariant ip0 < ip ==> ip + 4 <= iend
        invariant MatchRun(mem, ip0, iend, 15) == if s == 255 then MatchRun(mem, ip, iend, length) else (true, length, ip)
        invariant s != 255 ==> ip0 < ip
        decreases iend - ip, s
      {
        ExtensionFrom(src, ip0, ip);
        if ip + LASTLITERALS > iend {
          return false, length, ip;
        }
        s := mem[ip];
        ip, length := ip + 1, length + s;
      }
      ExtensionFrom(src, ip0, ip - 1);
    }
  }

  // ---------------------------------------------------------------- matches

  /** The copy of a match that begins in the external dictionary: the dictionary part,
      then, when the match goes on into the output, the output's own beginning, byte by
      byte if the match overlaps itself there. */
  method CopyFromDictionary(dest: array<Byte>, op0: nat, dict: seq<Byte>, offset: nat, length: nat) returns (ok: bool)
    requires op0 <= dest.Length && op0 < offset <= |dict| + op0
    modifies dest
    ensures ok <==> op0 + length + LASTLITERALS <= dest.Length
    ensures forall j :: 0 <= j < op0 ==> dest[j] == old(dest[j])
    ensures ok ==> Repeats(dict + dest[..op0 + length], |dict| + op0, offset)
  {
    var op := op0;
    if op + length > dest.Length - LASTLITERALS {
      return false;
    }
    ok := true;
    var back := offset - op0;
    if length <= back {
      forall i | 0 <= i < length { dest[op + i] := dict[|dict| - back + i]; }
    } else {
      forall i | 0 <= i < back { dest[op + i] := dict[|dict| - back + i]; }
      op := op + back;
      var copySize := length - back;
      if copySize > op {
        var endOfMatch, copyFrom := op + copySize, 0;
        while op < endOfMatch
          invariant op0 + back <= op <= endOfMatch && copyFrom == op - op0 - back
          invariant forall j :: 0 <= j < op0 ==> dest[j] == old(dest[j])
          invariant forall j :: op0 <= j < op0 + back ==> dest[j] == dict[|dict| - offset + j]
          invariant forall j :: op0 + back <= j < op ==> dest[j] == dest[j - offset]
        {
          dest[op] := dest[copyFrom];
          op, copyFrom := op + 1, copyFrom + 1;
        }
      } else {
        forall i | 0 <= i < copySize { dest[op + i] := dest[i]; }
      }
    }
    DictionaryRepeats(dict, dest[..op0 + length], op0, offset, length);
  }

  lemma DictionaryRepeats(dict: seq<Byte>, out: seq<Byte>, op0: nat, offset: nat, length: nat)
    requires op0 < offset <= |dict| + op0 && |out| == op0 + length
    requires forall j :: op0 <= j < |out| && j < offset ==> out[j] == dict[|dict| - offset + j]
    requires forall j :: offset <= j < |out| ==> out[j] == out[j - offset]
    ensures Repeats(dict + out, |dict| + op0, offset)
  {
    var r := dict + out;
    forall j | |dict| + op0 <= j < |r| ensures r[j] == r[j - offset] {
      var i := j - |dict|;
      assert r[j] == out[i];
      if i >= offset {
        assert r[j - offset] == out[i - offset];
      }
    }
  }

  /** Copies one match, from the dictionary or from the output, as the reference does. */
  method CopyMatchInto(dest: array<Byte>, op: nat, dict: seq<Byte>, offset: nat, length: nat) returns (ok: bool)
    requires op + STEPSIZE <= dest.Length && offset <= |dict| + op && MINMATCH <= length
    modifies dest
    ensures ok <==> op + length + LASTLITERALS <= dest.Length
    ensures forall j :: 0 <= j < op ==> dest[j] == old(dest[j])
    ensures ok && 1 <= offset ==> dict + dest[..op + length] == CopyMatch(dict + old(dest[..op]), offset, length)
  {
    ghost var before := dict + dest[..op];
    if offset > op {
      ok := CopyFromDictionary(dest, op, dict, offset, length);
    } else {
      ok := CopyOverlapping(dest, op, offset, length);
    }
    if ok && 1 <= offset {
      ghost var r := dict + dest[..op + length];
      if offset <= op {
        RepeatsAfter(dict, dest[..op + length], op, offset);
      }
      assert r[..|before|] == before;
      CopyMatchUnique(r, before, offset);
    }
  }

  lemma RepeatsAfter(dict: seq<Byte>, out: seq<Byte>, op: nat, offset: nat)
    requires 1 <= offset <= op <= |out| && Repeats(out, op, offset)
    ensures Repeats(dict + out, |dict| + op, offset)
  {
    var r := dict + out;
    forall j | |dict| + op <= j < |r| ensures r[j] == r[j - offset] {
      assert r[j] == out[j - |dict|] && r[j - offset] == out[j - |dict| - offset];
    }
  }

  // ---------------------------------------------------------------- one block

  /** Where the decoder stands: `ip` and `op` are as far as the reference got, too. */
  ghost predicate OnTrack(src: seq<Byte>, ip: nat, out: seq<Byte>, dict: seq<Byte>, cap: nat)
  {
    && ip <= |src| && |out| <= cap && (ip == 0 || ip + 4 <= |src|)
    && StrictSize(src, ip, |out|, cap, |dict|) == StrictSize(src, 0, 0, cap, |dict|)
    && (NoZeroOffsets(src, 0) ==>
          NoZeroOffsets(src, ip) && RefDecode(src, ip, dict + out) == RefDecode(src, 0, dict))
  }

  lemma Advance(src: seq<Byte>, ip: nat, out: seq<Byte>, dict: seq<Byte>, cap: nat,
                s: Sequence, matchPos: nat, next: nat, out': seq<Byte>)
    requires OnTrack(src, ip, out, dict, cap) && ReadItem(src, ip) == Next(s, matchPos, next)
    requires EndRulesHold(s, |out| + |s.literals|, matchPos, next, |src|, cap)
    requires s.offset <= |dict| + |out| + |s.literals| && |out'| == |out| + |s.literals| + s.matchLength
    requires next + 4 <= |src|
    requires 1 <= s.offset ==> dict + out' == CopyMatch(dict + out + s.literals, s.offset, s.matchLength)
    ensures OnTrack(src, next, out', dict, cap)
  {
    hide ReadItem, CopyMatch;
    assert dict + out + s.literals == (dict + out) + s.literals;
  }

  /** When the item at `ip` must not be accepted, neither must the block. */
  lemma Reject(src: seq<Byte>, ip: nat, out: seq<Byte>, dict: seq<Byte>, cap: nat)
    requires OnTrack(src, ip, out, dict, cap)
    requires match ReadItem(src, ip)
             case Malformed => true
             case Closing(literals) => |out| + |literals| > cap
             case Next(s, matchPos, next) =>
               !EndRulesHold(s, |out| + |s.literals|, matchPos, next, |src|, cap) || s.offset > |dict| + |out| + |s.literals|
    ensures StrictSize(src, 0, 0, cap, |dict|) == None
  {
    hide ReadItem, EndRulesHold;
  }

  lemma Finish(src: seq<Byte>, ip: nat, out: seq<Byte>, dict: seq<Byte>, cap: nat, literals: seq<Byte>)
    requires OnTrack(src, ip, out, dict, cap) && ReadItem(src, ip) == Closing(literals) && |out| + |literals| <= cap
    ensures StrictSize(src, 0, 0, cap, |dict|) == Some(|out| + |literals|)
    ensures NoZeroOffsets(src, 0) ==> RefDecode(src, 0, dict) == Some(dict + (out + literals))
  {
    hide ReadItem;
    assert dict + out + literals == dict + (out + literals);
  }

  /** What the item is, once its literal length has been read. */
  lemma AfterLiteralLength(mem: seq<Byte>, c: nat, ip0: nat, length: nat, ip: nat)
    requires ip0 <= c <= |mem| && ip0 < |mem| && ip0 < ip
    requires (ip0 < c && ReadLength(mem[..c], ip0 + 1, mem[ip0] / 16) == Some((length, ip))) ||
             (ip + length > c && (ip0 < c ==>
               var full := ReadLength(mem[..c], ip0 + 1, mem[ip0] / 16); full.None? || full.value.0 + full.value.1 > c))
    ensures var item := ReadItem(mem[..c], ip0);
            && (ip + length > c ==> item == Malformed)
            && (ip + length == c ==> item == Closing(mem[ip..c]))
            && (ip + length < c ==> item == ReadMatch(mem[..c], mem[ip..ip + length], ip + length, mem[ip0] % 16))
  {
    var src := mem[..c];
    if ip0 < c {
      assert src[ip0] == mem[ip0];
      if ip + length <= c {
        assert src[ip..] == mem[ip..c];
        assert src[ip..ip + length] == mem[ip..ip + length];
      }
    }
  }

  /** What the item is, once the match length has been read too. */
  lemma AfterMatchLength(mem: seq<Byte>, c: nat, literals: seq<Byte>, q: nat, nibble: nat)
    requires q + 2 <= c <= |mem|
    ensures ReadMatch(mem[..c], literals, q, nibble) ==
            match ReadLength(mem[..c], q + 2, nibble)
            case None => Malformed
            case Some((ml, next)) => Next(Sequence(literals, mem[q] as int + 256 * mem[q + 1] as int, ml + MINMATCH), q, next)
  {
  }

  lemma EmptyOutput(src: seq<Byte>, dict: seq<Byte>)
    ensures RefDecode([0], 0, dict) == Some(dict + [])
  {
    assert [0][1..] == [];
    assert ReadLength([0], 1, 0) == Some((0, 1));
    assert ReadItem([0], 0) == Closing([]);
  }

  /** The second half of a turn: literals, offset and match of a sequence that is not the last. */
  method CopySequence(mem: seq<Byte>, iend: nat, dest: array<Byte>, dict: seq<Byte>,
                      ghost ip0: nat, op0: nat, nibble: nat, length: nat, ip1: nat)
    returns (stop: bool, r: int, ip: nat, op: nat)
    requires iend <= |mem|
    requires op0 <= dest.Length && OnTrack(mem[..iend], ip0, dest[..op0], dict, dest.Length)
    requires nibble < 16 && ip0 < ip1 && op0 + length + MFLIMIT <= dest.Length && ip1 + length + 8 <= iend
    requires ReadItem(mem[..iend], ip0) == ReadMatch(mem[..iend], mem[ip1..ip1 + length], ip1 + length, nibble)
    modifies dest
    ensures op <= dest.Length
    ensures !stop ==> ip0 < ip < iend && OnTrack(mem[..iend], ip, dest[..op], dict, dest.Length)
    ensures stop ==> r < 0 && StrictSize(mem[..iend], 0, 0, dest.Length, |dict|) == None
    ensures StopAtMatch(mem, iend, dest.Length, |dict|, ip1 + length, nibble, op0 + length) ==
              if stop then Rejected((-1 - r) as nat) else StopFrom(mem, iend, dest.Length, |dict|, ip, op)
  {
    hide MatchLength, StopFrom, StrictSize, RefDecode, NoZeroOffsets, ReadItem, ReadMatch, ReadLength, CopyMatch, OnTrack;
    ghost var src, out, literals := mem[..iend], dest[..op0], mem[ip1..ip1 + length];
    stop, r, op := true, -1, op0 + length;
    WildCopyFrom(mem, ip1, dest, op0, op);
    assert dest[..op] == out + literals;
    ip := ip1 + length;
    ghost var q := ip;
    var offset := mem[ip] as int + 256 * mem[ip + 1] as int;
    ip := ip + 2;
    AfterMatchLength(mem, iend, literals, q, nibble);
    if |dict| < 65536 && offset > op + |dict| {
      Reject(src, ip0, out, dict, dest.Length);
      return true, ErrorAt(ip), ip, op;
    }
    var ok, ml;
    ok, ml, ip := ReadMatchLength(mem, ip, iend, nibble);
    if !ok {
      Reject(src, ip0, out, dict, dest.Length);
      return true, ErrorAt(ip), ip, op;
    }
    ml := ml + MINMATCH;
    ghost var s := Sequence(literals, offset, ml);
    assert ReadItem(src, ip0) == Next(s, q, ip);
    ok, op := CopyAndAdvance(dest, op, dict, src, ip0, out, s, q, ip, offset, ml);
    stop := !ok;
    if !ok {
      r := ErrorAt(ip);
    }
  }

  /** The match of a sequence whose literals have been written. */
  method CopyAndAdvance(dest: array<Byte>, op0: nat, dict: seq<Byte>, ghost src: seq<Byte>, ghost ip0: nat,
                        ghost out: seq<Byte>, ghost s: Sequence, ghost q: nat, ghost next: nat, offset: nat, length: nat)
    returns (ok: bool, op: nat)
    requires s.offset == offset && s.matchLength == length >= MINMATCH && offset <= |dict| + op0
    requires op0 + MFLIMIT <= dest.Length && dest[..op0] == out + s.literals && q + 8 <= |src| && next + 4 <= |src|
    requires OnTrack(src, ip0, out, dict, dest.Length) && ReadItem(src, ip0) == Next(s, q, next)
    modifies dest
    ensures op <= dest.Length && (ok <==> op0 + length + LASTLITERALS <= dest.Length) && (ok ==> op == op0 + length)
    ensures ok ==> OnTrack(src, next, dest[..op], dict, dest.Length)
    ensures !ok ==> StrictSize(src, 0, 0, dest.Length, |dict|) == None
  {
    hide StrictSize, ReadItem, CopyMatch, OnTrack;
    ok := CopyMatchInto(dest, op0, dict, offset, length);
    op := if ok then op0 + length else op0;
    if ok {
      assert dict + out + s.literals == dict + (out + s.literals);
      Advance(src, ip0, out, dict, dest.Length, s, q, next, dest[..op]);
    } else {
      Reject(src, ip0, out, dict, dest.Length);
    }
  }

  /** What the decoder has said when it stops: the strict size or a rejection, with the bytes
      of the reference decoder. */
  ghost predicate Answers(src: seq<Byte>, r: int, dest: seq<Byte>, dict: seq<Byte>)
  {
    && (r < 0 ==> StrictSize(src, 0, 0, |dest|, |dict|) == None)
    && (r >= 0 ==> r <= |dest| && StrictSize(src, 0, 0, |dest|, |dict|) == Some(r)
                   && (NoZeroOffsets(src, 0) ==> RefDecode(src, 0, dict) == Some(dict + dest[..r])))
  }

  /** There is no token to read, or no second byte where the token asks for one. */
  predicate ReadsOutside(mem: seq<Byte>)
  {
    |mem| == 0 || (|mem| == 1 && mem[0] / 16 == 15)
  }

  /** The end that an answer tells: a size, or, below zero, the position of a rejection. */
  function EndOf(r: Option<int>): SafeEnd
  {
    match r
    case None => Outside
    case Some(n) => if n >= 0 then Decoded(n) else Rejected(-1 - n)
  }

  /** One turn of the checked decoder's main loop: it decodes one sequence or stops; None when
      it would read outside the memory. */
  method DecodeSequence(mem: seq<Byte>, inputSize: nat, dest: array<Byte>, dict: seq<Byte>, ip0: nat, op0: nat)
    returns (stop: bool, r: Option<int>, ip: nat, op: nat)
    requires inputSize <= |mem| && 0 < dest.Length
    requires op0 <= dest.Length && OnTrack(mem[..inputSize], ip0, dest[..op0], dict, dest.Length)
    modifies dest
    ensures op <= dest.Length
    ensures !stop ==> ip0 < ip && OnTrack(mem[..inputSize], ip, dest[..op], dict, dest.Length)
    ensures stop ==> (r == None <==> ip0 == 0 && ReadsOutside(mem))
    ensures stop && r.Some? ==> Answers(mem[..inputSize], r.value, dest[..], dict)
    ensures ip0 == 0 && ReadsOutside(mem) ==> stop
    ensures StopFrom(mem, inputSize, dest.Length, |dict|, ip0, op0) ==
              if stop then EndOf(r) else StopFrom(mem, inputSize, dest.Length, |dict|, ip, op)
  {
    hide StrictSize, RefDecode, NoZeroOffsets, ReadItem, ReadLength, ReadMatch, LiteralLength, StopAtMatch;
    ghost var src, out := mem[..inputSize], dest[..op0];
    var iend, oend := inputSize, dest.Length;
    ip, op, stop, r := ip0, op0, true, None;
    if ip >= |mem| {
      return;
    }
    var token := mem[ip];
    var runLength;
    runLength, ip := ReadLiteralLength(mem, ip + 1, iend, token);
    if runLength.None? {
      return;
    }
    var length := runLength.value;
    AfterLiteralLength(mem, iend, ip0, length, ip);
    var cpy := op + length;
    if cpy + MFLIMIT > oend || ip + length + 2 + 1 + LASTLITERALS > iend {
      if ip + length != iend || cpy > oend {
        Reject(src, ip0, out, dict, oend);
        return true, Some(ErrorAt(ip)), ip, op;
      }
      Finish(src, ip0, out, dict, oend, mem[ip..iend]);
      CopyBytes(mem, ip, dest, op, length);
      ip, op := ip + length, op + length;
      assert dest[..][..op] == dest[..op];
      r := Some(op);
      return;
    }
    var n;
    stop, n, ip, op := CopySequence(mem, iend, dest, dict, ip0, op0, token % 16, length, ip);
    r := if stop then Some(n) else None;
  }

  /** LZ4_decompress_generic, checked (`endOnInput`), full decoding. `mem` is the memory at the
      source pointer, of which the first `inputSize` bytes are the input; `dict` is empty without
      a dictionary. The answer is None if the decoder reads outside `mem`. */
  method DecompressGeneric(mem: seq<Byte>, inputSize: nat, dest: array<Byte>, dict: seq<Byte>) returns (r: Option<int>)
    requires inputSize <= |mem|
    modifies dest
    ensures r == None <==> dest.Length > 0 && ReadsOutside(mem)
    ensures EndOf(r) == SafeStop(mem, inputSize, dest.Length, |dict|)
    ensures r.Some? && r.value < 0 ==> SafeSize(mem[..inputSize], dest.Length, |dict|) == None
    ensures r.Some? && r.value >= 0 ==> r.value <= dest.Length && SafeSize(mem[..inputSize], dest.Length, |dict|) == Some(r.value)
    ensures r.Some? && r.value >= 0 && NoZeroOffsets(mem[..inputSize], 0) ==>
              RefDecode(mem[..inputSize], 0, dict) == Some(dict + dest[..r.value])
  {
    ghost var src := mem[..inputSize];
    if dest.Length == 0 {
      EmptyOutput(src, dict);
      assert dest[..0] == [];
      assert inputSize == 1 && mem[0] == 0 <==> src == [0];
      return if inputSize == 1 && mem[0] == 0 then Some(0) else Some(-1);
    }
    hide RefDecode, NoZeroOffsets, StrictSize, StopFrom;
    var ip, op, stop := 0, 0, false;
    r := None;
    assert dict + dest[..0] == dict && dest[..0] == [];
    while !stop
      invariant 0 <= ip && 0 <= op <= dest.Length
      invariant !stop ==> OnTrack(src, ip, dest[..op], dict, dest.Length)
      invariant !stop && ip > 0 ==> !ReadsOutside(mem)
      invariant stop ==> (r == None <==> ReadsOutside(mem))
      invariant stop && r.Some? ==> Answers(src, r.value, dest[..], dict)
      invariant StopFrom(mem, inputSize, dest.Length, |dict|, 0, 0) ==
                  if stop then EndOf(r) else StopFrom(mem, inputSize, dest.Length, |dict|, ip, op)
      decreases !stop, |mem| - ip
    {
      stop, r, ip, op := DecodeSequence(mem, inputSize, dest, dict, ip, op);
    }
  }
}
