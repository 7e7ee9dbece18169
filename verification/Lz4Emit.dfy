/** Writing sequences into the output buffer, as both compressors do it, and what the
    bytes written so far encode. */
module Lz4Emit {
  import opened Wrappers
  import opened Lz4Format
  import opened Lz4Copy
  import opened Lz4Count

  /** LZ4_COMPRESSBOUND for supported sizes. */
  function CompressBound(n: nat): nat
  {
    n + n / 255 + 16
  }

  /** A match that may be written: long enough, near enough and clear of the end. */
  ghost predicate IsUsable(src: seq<Byte>, ref: nat, ip: nat, len: nat)
  {
    && IsMatch(src, ref, ip, len) && MINMATCH <= len && ip - ref <= MAX_DISTANCE
    && ip + MFLIMIT <= |src| && ip + len + LASTLITERALS <= |src|
  }

  /** Nothing at or behind `from` has been touched. */
  twostate predicate CleanFrom(dest: array<Byte>, from: nat)
    reads dest
  {
    forall j :: from <= j < dest.Length ==> dest[j] == old(dest[j])
  }

  // ---------------------------------------------------------------- lengths

  /** The run-length loop: a byte of 255 as long as 255 or more remains, then the rest. */
  method PutRunLength(dest: array<Byte>, op0: nat, n: nat) returns (op: nat)
    requires op0 + n / 255 + 1 <= dest.Length
    modifies dest
    ensures op == op0 + |ExtensionBytes(n)| && dest[op0..op] == ExtensionBytes(n)
    ensures forall j :: 0 <= j < op0 || op <= j < dest.Length ==> dest[j] == old(dest[j])
  {
    hide ExtensionBytes;
    var len := n;
    op := op0;
    while len >= 255
      invariant 0 <= len && op0 <= op && op + len / 255 + 1 == op0 + n / 255 + 1
      invariant dest[op0..op] + ExtensionBytes(len) == ExtensionBytes(n)
      invariant forall j :: 0 <= j < op0 || op <= j < dest.Length ==> dest[j] == old(dest[j])
    {
      ghost var sofar := dest[op0..op];
      ExtensionOne(len, sofar);
      dest[op] := 255;
      op, len := op + 1, len - 255;
      assert dest[op0..op] == sofar + [255];
    }
    ExtensionTail(len);
    dest[op] := len;
    op := op + 1;
    assert dest[op0..op] == dest[op0..op - 1] + [len];
  }

  lemma ExtensionOne(n: nat, sofar: seq<Byte>)
    requires n >= 255
    ensures sofar + ExtensionBytes(n) == sofar + [255] + ExtensionBytes(n - 255)
  {
    assert ExtensionBytes(n) == [255] + ExtensionBytes(n - 255);
  }

  lemma ExtensionPair(n: nat, sofar: seq<Byte>)
    requires n >= 510
    ensures sofar + ExtensionBytes(n) == sofar + [255, 255] + ExtensionBytes(n - 510)
  {
    var rest := ExtensionBytes(n - 510);
    assert ExtensionBytes(n) == [255] + ([255] + rest) == [255, 255] + rest;
  }

  lemma ExtensionTail(n: nat)
    requires n < 510
    ensures ExtensionBytes(n) == if n >= 255 then [255, n - 255] else [n]
  {
    if n >= 255 {
      assert ExtensionBytes(n) == [255] + ExtensionBytes(n - 255);
    }
  }

  /** The match-length loop: two bytes of 255 at a time, then one if needed, then the rest. */
  method PutMatchLength(dest: array<Byte>, op0: nat, n: nat) returns (op: nat)
    requires op0 + n / 255 + 1 <= dest.Length
    modifies dest
    ensures op == op0 + |ExtensionBytes(n)| && dest[op0..op] == ExtensionBytes(n)
    ensures forall j :: 0 <= j < op0 || op <= j < dest.Length ==> dest[j] == old(dest[j])
  {
    hide ExtensionBytes;
    var at, len := PutLengthPairs(dest, op0, n);
    ghost var pairs := dest[op0..at];
    op := PutLengthTail(dest, at, len);
    assert dest[op0..at] == pairs;
    assert dest[op0..op] == dest[op0..at] + dest[at..op];
  }

  method PutLengthPairs(dest: array<Byte>, op0: nat, n: nat) returns (op: nat, len: nat)
    requires op0 + n / 255 + 1 <= dest.Length
    modifies dest
    ensures op0 <= op && len < 510 && op + len / 255 == op0 + n / 255
    ensures dest[op0..op] + ExtensionBytes(len) == ExtensionBytes(n)
    ensures forall j :: 0 <= j < op0 || op <= j < dest.Length ==> dest[j] == old(dest[j])
  {
    hide ExtensionBytes;
    op, len := op0, n;
    while len >= 510
      invariant op0 <= op && op + len / 255 == op0 + n / 255
      invariant dest[op0..op] + ExtensionBytes(len) == ExtensionBytes(n)
      invariant forall j :: 0 <= j < op0 || op <= j < dest.Length ==> dest[j] == old(dest[j])
    {
      ghost var sofar := dest[op0..op];
      ExtensionPair(len, sofar);
      dest[op], dest[op + 1] := 255, 255;
      op, len := op + 2, len - 510;
      assert dest[op0..op] == sofar + [255, 255];
    }
  }

  method PutLengthTail(dest: array<Byte>, op0: nat, n: nat) returns (op: nat)
    requires n < 510 && op0 + n / 255 + 1 <= dest.Length
    modifies dest
    ensures op == op0 + |ExtensionBytes(n)| && dest[op0..op] == ExtensionBytes(n)
    ensures forall j :: 0 <= j < op0 || op <= j < dest.Length ==> dest[j] == old(dest[j])
  {
    hide ExtensionBytes;
    ExtensionTail(n);
    var len := n;
    op := op0;
    if len >= 255 {
      dest[op] := 255;
      op, len := op + 1, len - 255;
    }
    dest[op] := len;
    op := op + 1;
  }

  // ---------------------------------------------------------------- one sequence

  /** The token, with its low half zero, and the continuation of the literal length. */
  method PutToken(dest: array<Byte>, token: nat, n: nat) returns (op: nat)
    requires token + 1 + |LengthBytes(n)| <= dest.Length
    modifies dest
    ensures op == token + 1 + |LengthBytes(n)|
    ensures dest[token..op] == [Nibble(n) * 16] + LengthBytes(n)
    ensures forall j :: 0 <= j < token || op <= j < dest.Length ==> dest[j] == old(dest[j])
  {
    hide ExtensionBytes;
    op := token + 1;
    if n >= RUN_MASK {
      dest[token] := RUN_MASK * 16;
      op := PutRunLength(dest, op, n - RUN_MASK);
    } else {
      dest[token] := n * 16;
    }
    assert dest[token..op] == [dest[token]] + dest[token + 1..op];
  }

  /** Token, length continuation and the literals between `anchor` and `ip`. Up to a word
      past the literals may be overwritten. */
  method PutLiterals(src: seq<Byte>, anchor: nat, ip: nat, dest: array<Byte>, token: nat) returns (op: nat)
    requires anchor <= ip && ip + STEPSIZE <= |src|
    requires token + 1 + |LengthBytes(ip - anchor)| + (ip - anchor) + STEPSIZE <= dest.Length
    modifies dest
    ensures op == token + 1 + |LengthBytes(ip - anchor)| + (ip - anchor)
    ensures dest[token..op] == [Nibble(ip - anchor) * 16] + (LengthBytes(ip - anchor) + src[anchor..ip])
    ensures forall j :: 0 <= j < token || op + STEPSIZE <= j < dest.Length ==> dest[j] == old(dest[j])
  {
    hide LengthBytes;
    var litLength := ip - anchor;
    var at := PutToken(dest, token, litLength);
    label lengthWritten:
    WildCopyFrom(src, anchor, dest, at, at + litLength);
    op := at + litLength;
    assert dest[token..at] == old@lengthWritten(dest[token..at]);
    assert dest[token..op] == dest[token..at] + dest[at..op];
  }

  /** Offset and match length; the low half of the token is filled in. */
  method PutMatch(dest: array<Byte>, token: nat, op0: nat, ghost s: Sequence, offset: nat, matchLength: nat) returns (op: nat)
    requires Encodable(s) && s.offset == offset && s.matchLength == matchLength
    requires token < op0 && op0 + |MatchBytes(s)| <= dest.Length
    requires dest[token] % 16 == 0
    modifies dest
    ensures op == op0 + |MatchBytes(s)| && dest[op0..op] == MatchBytes(s)
    ensures dest[token] == old(dest[token]) + Nibble(matchLength - MINMATCH)
    ensures forall j :: (0 <= j < op0 && j != token) || op <= j < dest.Length ==> dest[j] == old(dest[j])
  {
    hide ExtensionBytes, Nibble;
    PutOffset(dest, op0, offset);
    var ml := matchLength - MINMATCH;
    ghost var offsetBytes := dest[op0..op0 + 2];
    op := PutNibble(dest, token, op0 + 2, ml);
    assert dest[op0..op0 + 2] == offsetBytes;
    assert dest[op0..op] == dest[op0..op0 + 2] + dest[op0 + 2..op];
  }

  /** LZ4_WRITE_LITTLEENDIAN_16. */
  method PutOffset(dest: array<Byte>, op: nat, offset: nat)
    requires op + 2 <= dest.Length && offset < 65536
    modifies dest
    ensures dest[op..op + 2] == [offset % 256, offset / 256]
    ensures forall j :: 0 <= j < op || op + 2 <= j < dest.Length ==> dest[j] == old(dest[j])
  {
    dest[op], dest[op + 1] := offset % 256, offset / 256;
  }

  /** The match length, in the low half of the token and in bytes from `op0` on. */
  method PutNibble(dest: array<Byte>, token: nat, op0: nat, ml: nat) returns (op: nat)
    requires token < op0 && op0 + |LengthBytes(ml)| <= dest.Length && dest[token] % 16 == 0
    modifies dest
    ensures op == op0 + |LengthBytes(ml)| && dest[op0..op] == LengthBytes(ml)
    ensures dest[token] == old(dest[token]) + Nibble(ml)
    ensures forall j :: (0 <= j < op0 && j != token) || op <= j < dest.Length ==> dest[j] == old(dest[j])
  {
    hide ExtensionBytes;
    op := op0;
    if ml >= ML_MASK {
      dest[token] := dest[token] + ML_MASK;
      op := PutMatchLength(dest, op, ml - ML_MASK);
    } else {
      dest[token] := dest[token] + ml;
    }
  }

  // ---------------------------------------------------------------- what has been written

  /** `bytes` encode the first `anchor` bytes of the source, and are few enough. */
  ghost predicate Written(ss: seq<Sequence>, bytes: seq<Byte>, src: seq<Byte>, anchor: nat)
  {
    && AllEncodable(ss) && bytes == EncodeSequences(ss)
    && anchor <= |src| && Expand(ss) == Some(src[..anchor]) && EndsInTime(ss, |src|)
    && 255 * |bytes| <= 256 * anchor
  }

  /** The token, with its low half still zero, and the literals of a sequence have been added. */
  ghost predicate Started(ss: seq<Sequence>, bytes: seq<Byte>, token: nat, src: seq<Byte>, anchor: nat, ip: nat)
  {
    && anchor <= ip <= |src| && token < |bytes| && Written(ss, bytes[..token], src, anchor)
    && bytes[token..] == [Nibble(ip - anchor) * 16] + (LengthBytes(ip - anchor) + src[anchor..ip])
  }

  lemma WrittenNothing(src: seq<Byte>)
    ensures Written([], [], src, 0)
  {
  }

  lemma LengthBytesSize(n: nat)
    ensures |LengthBytes(n)| <= n && 255 * |LengthBytes(n)| <= n + 240
    ensures n < 15 ==> |LengthBytes(n)| == 0
  {
  }

  /** A sequence takes at most 256 bytes of output for every 255 bytes of input. */
  lemma SequenceSize(s: Sequence)
    requires Encodable(s)
    ensures 255 * |EncodeSequence(s)| <= 256 * (|s.literals| + s.matchLength)
  {
    hide LengthBytes;
    LengthBytesSize(|s.literals|);
    LengthBytesSize(s.matchLength - MINMATCH);
  }

  lemma MatchIsCopy(src: seq<Byte>, anchor: nat, ref: nat, ip: nat, len: nat)
    requires anchor <= ip && IsMatch(src, ref, ip, len)
    ensures CopyMatch(src[..anchor] + src[anchor..ip], ip - ref, len) == src[..ip + len]
  {
    var r := src[..ip + len];
    assert src[..anchor] + src[anchor..ip] == src[..ip] == r[..ip];
    CopyMatchUnique(r, src[..ip], ip - ref);
  }

  /** Appending the sequence of a usable match to what has been written. */
  lemma {:induction false} Append(ss: seq<Sequence>, bytes: seq<Byte>, src: seq<Byte>, anchor: nat, ref: nat, ip: nat, len: nat)
    requires Written(ss, bytes, src, anchor) && anchor <= ip && IsUsable(src, ref, ip, len)
    ensures var s := Sequence(src[anchor..ip], ip - ref, len);
            Encodable(s) && Written(ss + [s], bytes + EncodeSequence(s), src, ip + len)
  {
    hide CopyMatch, EncodeSequence;
    var s := Sequence(src[anchor..ip], ip - ref, len);
    var longer := ss + [s];
    assert longer[..|longer| - 1] == ss && longer[|longer| - 1] == s;
    SequenceSize(s);
    MatchIsCopy(src, anchor, ref, ip, len);
  }

  lemma RoomForLiterals(op: nat, anchor: nat, ip: nat, n: nat)
    requires 255 * op <= 256 * anchor && anchor <= ip && ip + MFLIMIT <= n
    ensures op + 1 + |LengthBytes(ip - anchor)| + (ip - anchor) + STEPSIZE <= CompressBound(n)
  {
    hide LengthBytes;
    LengthBytesSize(ip - anchor);
  }

  lemma RoomForClosing(op: nat, anchor: nat, n: nat)
    requires 255 * op <= 256 * anchor && anchor <= n
    ensures op + |LengthBytes(n - anchor)| + 1 + (n - anchor) <= CompressBound(n)
  {
    hide LengthBytes;
    LengthBytesSize(n - anchor);
  }

  /** Begins the sequence of a match at `ip`. */
  method StartSequence(src: seq<Byte>, anchor: nat, ip: nat, dest: array<Byte>, token: nat, ghost ss: seq<Sequence>) returns (op: nat)
    requires token <= dest.Length && Written(ss, dest[..token], src, anchor)
    requires anchor <= ip && ip + MFLIMIT <= |src| && CompressBound(|src|) <= dest.Length
    modifies dest
    ensures token < op <= dest.Length && Started(ss, dest[..op], token, src, anchor, ip)
    ensures forall j :: op + STEPSIZE <= j < dest.Length ==> dest[j] == old(dest[j])
  {
    hide LengthBytes, Expand, EncodeSequences, EndsInTime;
    RoomForLiterals(token, anchor, ip, |src|);
    op := PutLiterals(src, anchor, ip, dest, token);
    assert dest[..op][..token] == old(dest[..token]);
    assert dest[..op][token..] == dest[token..op];
  }

  /** Begins a sequence without literals. */
  method StartEmptySequence(src: seq<Byte>, ip: nat, dest: array<Byte>, token: nat, ghost ss: seq<Sequence>) returns (op: nat)
    requires token < dest.Length && Written(ss, dest[..token], src, ip)
    modifies dest
    ensures op == token + 1 && Started(ss, dest[..op], token, src, ip, ip)
    ensures forall j :: 0 <= j < dest.Length && j != token ==> dest[j] == old(dest[j])
  {
    hide Expand, EncodeSequences, EndsInTime;
    dest[token] := 0;
    op := token + 1;
    assert dest[..op][..token] == old(dest[..token]);
    assert src[ip..ip] == [] && dest[..op][token..] == [0] == [0] + ([] + []);
  }

  lemma Complete(ss: seq<Sequence>, before: seq<Byte>, after: seq<Byte>, token: nat, src: seq<Byte>, anchor: nat, ref: nat, ip: nat, len: nat)
    requires Started(ss, before, token, src, anchor, ip) && IsUsable(src, ref, ip, len)
    requires |before| <= |after| && after[..token] == before[..token] && after[token + 1..|before|] == before[token + 1..]
    requires after[token] == before[token] + Nibble(len - MINMATCH)
    requires after[|before|..] == MatchBytes(Sequence(src[anchor..ip], ip - ref, len))
    ensures var s := Sequence(src[anchor..ip], ip - ref, len);
            after == before[..token] + EncodeSequence(s) && Written(ss + [s], after, src, ip + len)
  {
    hide LengthBytes, Written, MatchBytes;
    var s := Sequence(src[anchor..ip], ip - ref, len);
    var lits := LengthBytes(ip - anchor) + src[anchor..ip];
    assert before[token] == before[token..][0] && before[token + 1..] == before[token..][1..] == lits;
    assert after == after[..token] + [after[token]] + after[token + 1..|before|] + after[|before|..];
    assert after[token] == Token(s);
    assert EncodeSequence(s) == [Token(s)] + lits + MatchBytes(s);
    assert after == before[..token] + EncodeSequence(s);
    Append(ss, before[..token], src, anchor, ref, ip, len);
  }

  /** Ends the sequence begun at `token` with its match. */
  method FinishSequence(src: seq<Byte>, ghost anchor: nat, ref: nat, ip: nat, len: nat, dest: array<Byte>, token: nat, op0: nat, ghost ss: seq<Sequence>)
    returns (op: nat, ghost ss': seq<Sequence>)
    requires op0 <= dest.Length && Started(ss, dest[..op0], token, src, anchor, ip)
    requires IsUsable(src, ref, ip, len) && CompressBound(|src|) <= dest.Length
    modifies dest
    ensures ss' == ss + [Sequence(src[anchor..ip], ip - ref, len)]
    ensures op0 + 2 <= op < CompressBound(|src|) && Written(ss', dest[..op], src, ip + len)
    ensures forall j :: op <= j < dest.Length ==> dest[j] == old(dest[j])
  {
    hide LengthBytes, EncodeSequences, Expand, EndsInTime, MatchBytes;
    ghost var s := Sequence(src[anchor..ip], ip - ref, len);
    ghost var before := dest[..op0];
    RoomForMatch(ss, before, token, src, anchor, ref, ip, len);
    assert before[token] == before[token..][0];
    op := PutMatch(dest, token, op0, s, ip - ref, len);
    ss' := ss + [s];
    assert dest[..op][token] == before[token] + Nibble(len - MINMATCH);
    assert dest[..op][token + 1..op0] == before[token + 1..];
    assert dest[..op][..token] == before[..token];
    Complete(ss, before, dest[..op], token, src, anchor, ref, ip, len);
  }

  lemma RoomForMatch(ss: seq<Sequence>, before: seq<Byte>, token: nat, src: seq<Byte>, anchor: nat, ref: nat, ip: nat, len: nat)
    requires Started(ss, before, token, src, anchor, ip) && IsUsable(src, ref, ip, len)
    ensures var s := Sequence(src[anchor..ip], ip - ref, len);
            |before| + |MatchBytes(s)| <= CompressBound(|src|) && 2 <= |MatchBytes(s)|
    ensures before[token] % 16 == 0
  {
    hide LengthBytes, EncodeSequences, Expand, EndsInTime;
    var s := Sequence(src[anchor..ip], ip - ref, len);
    SequenceSize(s);
    assert |before| == token + 1 + |LengthBytes(ip - anchor)| + (ip - anchor);
    assert before[token] == before[token..][0];
  }

  /** LZ4HC_encodeSequence: a whole sequence. */
  method PutSequence(src: seq<Byte>, anchor: nat, ref: nat, ip: nat, len: nat, dest: array<Byte>, op0: nat, ghost ss: seq<Sequence>)
    returns (op: nat, ghost ss': seq<Sequence>)
    requires op0 <= dest.Length && Written(ss, dest[..op0], src, anchor)
    requires anchor <= ip && IsUsable(src, ref, ip, len) && CompressBound(|src|) <= dest.Length
    modifies dest
    ensures ss' == ss + [Sequence(src[anchor..ip], ip - ref, len)]
    ensures op0 < op <= dest.Length && Written(ss', dest[..op], src, ip + len)
    ensures forall j :: op + 6 <= j < dest.Length ==> dest[j] == old(dest[j])
  {
    hide Written, Started, IsMatch;
    var afterLiterals := StartSequence(src, anchor, ip, dest, op0, ss);
    op, ss' := FinishSequence(src, anchor, ref, ip, len, dest, op0, afterLiterals, ss);
  }

  /** The closing literals, and with them the whole block. */
  method PutClosing(src: seq<Byte>, anchor: nat, dest: array<Byte>, op0: nat, ghost ss: seq<Sequence>) returns (op: nat)
    requires op0 <= dest.Length && Written(ss, dest[..op0], src, anchor) && CompressBound(|src|) <= dest.Length
    modifies dest
    ensures op <= dest.Length && op0 + 1 + (|src| - anchor) <= op <= CompressBound(|src|)
    ensures IsBlockWith(dest[..op], src, ss) && IsBlockOf(dest[..op], src)
    ensures forall j :: op <= j < dest.Length ==> dest[j] == old(dest[j])
  {
    hide LengthBytes, EncodeSequences, Expand, EndsInTime, IsBlock;
    var lastRun := |src| - anchor;
    RoomForClosing(op0, anchor, |src|);
    var at := PutToken(dest, op0, lastRun);
    label lengthWritten:
    op := at + lastRun;
    CopyExactly(src, anchor, dest, at);
    assert dest[..at] == old@lengthWritten(dest[..at]) == old(dest[..op0]) + old@lengthWritten(dest[op0..at]);
    assert dest[..op] == dest[..at] + dest[at..op];
    Closed(ss, old(dest[..op0]), src, anchor, dest[..op]);
  }

  /** memcpy of the rest of the input. */
  method CopyExactly(src: seq<Byte>, anchor: nat, dest: array<Byte>, op: nat)
    requires anchor <= |src| && op + (|src| - anchor) <= dest.Length
    modifies dest
    ensures dest[op..op + (|src| - anchor)] == src[anchor..]
    ensures forall j :: 0 <= j < op || op + (|src| - anchor) <= j < dest.Length ==> dest[j] == old(dest[j])
  {
    forall i | 0 <= i < |src| - anchor { dest[op + i] := src[anchor + i]; }
  }

  lemma Closed(ss: seq<Sequence>, before: seq<Byte>, src: seq<Byte>, anchor: nat, after: seq<Byte>)
    requires Written(ss, before, src, anchor)
    requires after == before + ([Nibble(|src| - anchor) * 16] + LengthBytes(|src| - anchor)) + src[anchor..]
    ensures IsBlock(after, src, ss, src[anchor..])
  {
    hide LengthBytes, EncodeSequences, Expand, EndsInTime;
    assert after == before + EncodeClosing(src[anchor..]);
    assert src == src[..anchor] + src[anchor..];
  }
}
