/** The copying primitives of lz4.c: 8-byte wild copies that overshoot, and the
    copy of a match that may overlap itself. Buffers are arrays and pointers are
    indices into them; a word copy reads its 8 bytes before it writes them. */
module Lz4Copy {
  import opened Lz4Format

  const STEPSIZE: nat := 8
  const COPYLENGTH: nat := 8

  /** How many bytes LZ4_WILDCOPY copies when `n` are wanted: whole words, at least one. */
  function WildLength(n: nat): (r: nat)
    ensures n <= r <= n + STEPSIZE && r % STEPSIZE == 0 && STEPSIZE <= r
  {
    if n == 0 then STEPSIZE else (n + STEPSIZE - 1) / STEPSIZE * STEPSIZE
  }

  lemma WordFits(done: nat, n: nat)
    requires done % STEPSIZE == 0 && done < n
    ensures done + STEPSIZE <= WildLength(n)
  {
  }

  /** LZ4_WILDCOPY from the input: at least one word, then words until `e` is reached. */
  method WildCopyFrom(src: seq<Byte>, s: nat, dest: array<Byte>, d: nat, e: nat)
    requires d <= e && e + STEPSIZE <= dest.Length && s + WildLength(e - d) <= |src|
    modifies dest
    ensures dest[d..e] == src[s..s + (e - d)]
    ensures forall j :: 0 <= j < d || e + STEPSIZE <= j < dest.Length ==> dest[j] == old(dest[j])
  {
    hide WildLength;
    var dp, sp := d, s;
    forall i | 0 <= i < STEPSIZE { dest[dp + i] := src[sp + i]; }
    dp, sp := dp + STEPSIZE, sp + STEPSIZE;
    while dp < e
      invariant sp - s == dp - d && d < dp < e + STEPSIZE + 1 && (dp - d) % STEPSIZE == 0
      invariant dp - d <= WildLength(e - d)
      invariant forall j :: d <= j < dp ==> dest[j] == src[s + (j - d)]
      invariant forall j :: 0 <= j < d || e + STEPSIZE <= j < dest.Length ==> dest[j] == old(dest[j])
    {
      WordFits(dp - d, e - d);
      forall i | 0 <= i < STEPSIZE { dest[dp + i] := src[sp + i]; }
      dp, sp := dp + STEPSIZE, sp + STEPSIZE;
    }
  }

  /** LZ4_WILDCOPY inside the output, `distance` bytes back: words until `e` is reached.
      With a distance of a word or more each byte repeats the one `distance` before it. */
  method WildCopyWithin(dest: array<Byte>, d: nat, ref: nat, e: nat) returns (dp: nat, rp: nat)
    requires ref <= d && d + STEPSIZE <= dest.Length && e + STEPSIZE - 1 <= dest.Length
    modifies dest
    ensures dp - rp == d - ref && e <= dp <= dest.Length && d + STEPSIZE <= dp && ref <= rp
    ensures forall j :: 0 <= j < d ==> dest[j] == old(dest[j])
    ensures STEPSIZE <= d - ref ==> forall j :: d <= j < dp ==> dest[j] == dest[j - (d - ref)]
  {
    dp, rp := d, ref;
    forall i | 0 <= i < STEPSIZE { dest[dp + i] := dest[rp + i]; }
    dp, rp := dp + STEPSIZE, rp + STEPSIZE;
    while dp < e
      invariant dp - rp == d - ref && d + STEPSIZE <= dp <= dest.Length && ref <= rp
      invariant forall j :: 0 <= j < d ==> dest[j] == old(dest[j])
      invariant STEPSIZE <= d - ref ==> forall j :: d <= j < dp ==> dest[j] == dest[j - (d - ref)]
    {
      forall i | 0 <= i < STEPSIZE { dest[dp + i] := dest[rp + i]; }
      dp, rp := dp + STEPSIZE, rp + STEPSIZE;
    }
  }

  // The two start-up tables: how far the second half-word is from the first, and how
  // far the read position is moved back after the word.
  const DEC32TABLE: seq<int> := [4, 1, 2, 1, 4, 4, 4, 4]
  const DEC64TABLE: seq<int> := [0, 0, 0, -1, 0, 1, 2, 3]

  /** The distance at which copying goes on after the start-up word of a close match. */
  function DistanceAfter(offset: nat): (r: int)
    requires offset < STEPSIZE
    ensures 1 <= offset ==> STEPSIZE <= r <= STEPSIZE + offset && r == (r / offset) * offset
  {
    offset + STEPSIZE - DEC32TABLE[offset] + DEC64TABLE[offset]
  }

  /** The start-up word of a match closer than a word: four single bytes, then four bytes
      from a position that the first table picks so that the period is kept. */
  method StartCloseMatch(dest: array<Byte>, op: nat, offset: nat) returns (ref: nat)
    requires offset < STEPSIZE && offset <= op && op + STEPSIZE <= dest.Length
    modifies dest
    ensures ref == op + STEPSIZE - DistanceAfter(offset)
    ensures forall j :: 0 <= j < op ==> dest[j] == old(dest[j])
    ensures 1 <= offset ==> forall j :: op <= j < op + STEPSIZE ==> dest[j] == dest[j - offset]
  {
    ref := op - offset;
    dest[op] := dest[ref];
    dest[op + 1] := dest[ref + 1];
    dest[op + 2] := dest[ref + 2];
    dest[op + 3] := dest[ref + 3];
    ref := ref + DEC32TABLE[offset];
    forall i | 0 <= i < 4 { dest[op + 4 + i] := dest[ref + i]; }
    ref := ref - DEC64TABLE[offset];
  }

  /** Within a stretch that repeats `offset`, bytes a multiple of `offset` apart are equal. */
  lemma {:induction false} PeriodMultiple(s: seq<Byte>, lo: nat, offset: nat, x: nat, k: nat)
    requires 1 <= offset <= lo && x < |s| && k * offset <= x && lo - offset <= x - k * offset
    requires forall j :: lo <= j <= x ==> s[j] == s[j - offset]
    ensures s[x] == s[x - k * offset]
    decreases k
  {
    if k > 0 {
      assert k * offset == (k - 1) * offset + offset;
      PeriodMultiple(s, lo, offset, x - offset, k - 1);
    }
  }

  /** A word that repeats `offset`, continued at a multiple of `offset`, repeats `offset` throughout. */
  lemma {:induction false} PeriodContinues(s: seq<Byte>, op: nat, offset: nat, distance: nat, x: nat)
    requires 1 <= offset <= op && op <= x < |s|
    requires STEPSIZE <= distance <= STEPSIZE + offset && distance == (distance / offset) * offset
    requires forall j :: op <= j < op + STEPSIZE && j < |s| ==> s[j] == s[j - offset]
    requires forall j :: op + STEPSIZE <= j < |s| ==> s[j] == s[j - distance]
    ensures s[x] == s[x - offset]
    decreases x
  {
    if x >= op + STEPSIZE {
      assert s[x] == s[x - distance];
      if x - offset >= op + STEPSIZE {
        assert s[x - offset] == s[x - offset - distance];
        PeriodContinues(s, op, offset, distance, x - distance);
      } else {
        var k := distance / offset;
        assert k * offset - offset == (k - 1) * offset;
        PeriodMultiple(s, op, offset, x - offset, k - 1);
      }
    }
  }

  /** The byte loop that finishes a match close to the end of the output. */
  method CopyTail(dest: array<Byte>, op: nat, ref: nat, cpy: nat) returns (end: nat)
    requires ref < op && op <= dest.Length && cpy <= dest.Length
    modifies dest
    ensures end == if op < cpy then cpy else op
    ensures forall j :: 0 <= j < op ==> dest[j] == old(dest[j])
    ensures forall j :: op <= j < end ==> dest[j] == dest[j - (op - ref)]
  {
    var rp := ref;
    end := op;
    while end < cpy
      invariant end - rp == op - ref && op <= end && (op < cpy ==> end <= cpy) && (op >= cpy ==> end == op)
      invariant forall j :: 0 <= j < op ==> dest[j] == old(dest[j])
      invariant forall j :: op <= j < end ==> dest[j] == dest[j - (op - ref)]
    {
      dest[end] := dest[rp];
      end, rp := end + 1, rp + 1;
    }
  }

  /** What both ways of copying the rest of a match promise: from `op` on every byte
      repeats the one `distance` before it, at least up to `cpy`. */
  twostate predicate Continued(dest: array<Byte>, op: nat, distance: nat, end: nat, cpy: nat)
    requires distance <= op
    reads dest
  {
    && cpy <= end <= dest.Length && op <= end
    && (forall j :: 0 <= j < op ==> dest[j] == old(dest[j]))
    && (STEPSIZE <= distance ==> forall j :: op <= j < end ==> dest[j] == dest[j - distance])
  }

  /** The rest of a match, after its first word: words, and bytes near the end. */
  method CopyRest(dest: array<Byte>, op0: nat, ref0: nat, cpy: nat) returns (end: nat)
    requires ref0 < op0 && cpy + LASTLITERALS <= dest.Length
    requires op0 <= cpy + 4 && op0 <= dest.Length
    modifies dest
    ensures Continued(dest, op0, op0 - ref0, end, cpy)
  {
    var op, ref := op0, ref0;
    if cpy > dest.Length - 12 {
      if op < dest.Length - COPYLENGTH {
        op, ref := WildCopyWithin(dest, op, ref, dest.Length - COPYLENGTH);
      }
      end := CopyTail(dest, op, ref, cpy);
    } else {
      op, ref := WildCopyWithin(dest, op, ref, cpy);
      end := op;
    }
  }

  /** The first word of a match, close or far. */
  method CopyFirstWord(dest: array<Byte>, op: nat, offset: nat) returns (ref: nat)
    requires offset <= op && op + STEPSIZE <= dest.Length
    modifies dest
    ensures ref < op + STEPSIZE
    ensures 1 <= offset ==> var distance := op + STEPSIZE - ref;
                            STEPSIZE <= distance <= STEPSIZE + offset && distance == (distance / offset) * offset
    ensures forall j :: 0 <= j < op ==> dest[j] == old(dest[j])
    ensures 1 <= offset ==> forall j :: op <= j < op + STEPSIZE ==> dest[j] == dest[j - offset]
  {
    if offset < STEPSIZE {
      ref := StartCloseMatch(dest, op, offset);
    } else {
      ref := op - offset;
      forall i | 0 <= i < STEPSIZE { dest[op + i] := dest[ref + i]; }
      ref := ref + STEPSIZE;
    }
  }

  /** The copy of a match of `length` bytes `offset` back: the start-up for close
      matches, then words, then single bytes near the end of the output. It fails only
      when fewer than LASTLITERALS bytes would be left; otherwise every byte of the
      match repeats the one `offset` before it. */
  method CopyOverlapping(dest: array<Byte>, op: nat, offset: nat, length: nat) returns (ok: bool)
    requires offset <= op && op + STEPSIZE <= dest.Length && MINMATCH <= length
    modifies dest
    ensures ok <==> op + length + LASTLITERALS <= dest.Length
    ensures forall j :: 0 <= j < op ==> dest[j] == old(dest[j])
    ensures ok && 1 <= offset ==> forall j :: op <= j < op + length ==> dest[j] == dest[j - offset]
  {
    var cpy := op + length;
    var ref := CopyFirstWord(dest, op, offset);
    if cpy > dest.Length - LASTLITERALS {
      return false;
    }
    ghost var distance, word := op + STEPSIZE - ref, dest[..op + STEPSIZE];
    var end := CopyRest(dest, op + STEPSIZE, ref, cpy);
    ok := true;
    if 1 <= offset {
      ghost var s := dest[..end];
      assert s[..op + STEPSIZE] == word;
      WordContinues(s, word, op, offset, distance);
      forall j | op <= j < cpy ensures dest[j] == dest[j - offset] {
        assert s[j] == dest[j] && s[j - offset] == dest[j - offset];
      }
    }
  }

  lemma WordContinues(s: seq<Byte>, word: seq<Byte>, op: nat, offset: nat, distance: nat)
    requires 1 <= offset <= op && |word| == op + STEPSIZE <= |s| && s[..op + STEPSIZE] == word
    requires STEPSIZE <= distance <= STEPSIZE + offset && distance == (distance / offset) * offset
    requires forall j :: op <= j < op + STEPSIZE ==> word[j] == word[j - offset]
    requires forall j :: op + STEPSIZE <= j < |s| ==> s[j] == s[j - distance]
    ensures forall j :: op <= j < |s| ==> s[j] == s[j - offset]
  {
    forall j | op <= j < op + STEPSIZE ensures s[j] == s[j - offset] {
      assert s[j] == word[j] && s[j - offset] == word[j - offset];
    }
    forall j | op <= j < |s| ensures s[j] == s[j - offset] {
      PeriodContinues(s, op, offset, distance, j);
    }
  }

  /** memcpy of `length` bytes. */
  method CopyBytes(src: seq<Byte>, ip: nat, dest: array<Byte>, op: nat, length: nat)
    requires ip + length <= |src| && op + length <= dest.Length
    modifies dest
    ensures dest[..op + length] == old(dest[..op]) + src[ip..ip + length]
    ensures dest[op + length..] == old(dest[op + length..])
  {
    forall i | 0 <= i < length { dest[op + i] := src[ip + i]; }
  }
}
