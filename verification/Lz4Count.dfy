/** Reading words of the input, and the word-wide comparison of two positions. */
module Lz4Count {
  import opened Lz4Format
  import opened Lz4Copy

  /** `len` bytes at `ref` and at the later position `ip` are the same. */
  ghost predicate IsMatch(src: seq<Byte>, ref: nat, ip: nat, len: nat)
  {
    ref < ip && ip + len <= |src| && forall j :: ip <= j < ip + len ==> src[j] == src[j - (ip - ref)]
  }

  /** A little-endian 32-bit read. */
  function Read32(src: seq<Byte>, p: nat): (r: nat)
    requires p + 4 <= |src|
    ensures r < 0x1_0000_0000
  {
    src[p] as int + 0x100 * src[p + 1] as int + 0x1_0000 * src[p + 2] as int + 0x100_0000 * src[p + 3] as int
  }

  lemma FirstDigitEqual(a: Byte, x: int, b: Byte, y: int)
    requires a as int + 256 * x == b as int + 256 * y
    ensures a == b && x == y
  {
  }

  /** Two words are equal exactly when their bytes are. */
  lemma Read32Equal(src: seq<Byte>, ref: nat, ip: nat)
    requires ref < ip && ip + 4 <= |src|
    ensures Read32(src, ref) == Read32(src, ip) <==> IsMatch(src, ref, ip, 4)
  {
    var a0, a1, a2, a3 := src[ref], src[ref + 1], src[ref + 2], src[ref + 3];
    var b0, b1, b2, b3 := src[ip], src[ip + 1], src[ip + 2], src[ip + 3];
    if Read32(src, ref) == Read32(src, ip) {
      FirstDigitEqual(a0, a1 as int + 256 * (a2 as int + 256 * a3 as int), b0, b1 as int + 256 * (b2 as int + 256 * b3 as int));
      FirstDigitEqual(a1, a2 as int + 256 * a3 as int, b1, b2 as int + 256 * b3 as int);
      FirstDigitEqual(a2, a3 as int, b2, b3 as int);
      forall j | ip <= j < ip + 4 ensures src[j] == src[j - (ip - ref)] {
        assert j == ip || j == ip + 1 || j == ip + 2 || j == ip + 3;
      }
    } else if IsMatch(src, ref, ip, 4) {
      BytesOfMatch(src, ref, ip);
    }
  }

  lemma BytesOfMatch(src: seq<Byte>, ref: nat, ip: nat)
    requires IsMatch(src, ref, ip, 4)
    ensures src[ip] == src[ref] && src[ip + 1] == src[ref + 1] && src[ip + 2] == src[ref + 2] && src[ip + 3] == src[ref + 3]
  {
    var d := ip - ref;
    assert src[ip] == src[ip - d] && src[ip + 1] == src[ip + 1 - d] && src[ip + 2] == src[ip + 2 - d] && src[ip + 3] == src[ip + 3 - d];
  }

  /** `len` bytes at any two positions are the same. */
  ghost predicate SameBytes(src: seq<Byte>, q: nat, p: nat, len: nat)
  {
    p + len <= |src| && q + len <= |src| && src[p..p + len] == src[q..q + len]
  }

  /** At an earlier position the same bytes make a match. */
  lemma SameIsMatch(src: seq<Byte>, q: nat, p: nat, len: nat)
    requires q < p
    ensures SameBytes(src, q, p, len) <==> IsMatch(src, q, p, len)
  {
    if SameBytes(src, q, p, len) {
      forall j | p <= j < p + len ensures src[j] == src[j - (p - q)] {
        assert src[p..p + len][j - p] == src[q..q + len][j - p];
      }
    }
    if IsMatch(src, q, p, len) {
      var a, b := src[p..p + len], src[q..q + len];
      forall i | 0 <= i < len ensures a[i] == b[i] {
        assert src[p + i] == src[p + i - (p - q)];
      }
    }
  }

  /** The length of the longest common prefix at `p` and at `q`, capped where `p` reaches `limit`. */
  function CommonLength(src: seq<Byte>, p: nat, q: nat, limit: nat): (r: nat)
    requires p <= limit <= |src| && q + (limit - p) <= |src|
    ensures p + r <= limit && SameBytes(src, q, p, r) && (q < p ==> IsMatch(src, q, p, r))
    ensures p + r < limit ==> src[p + r] != src[q + r]
    decreases limit - p
  {
    if p == limit || src[p] != src[q] then 0
    else
      var r := CommonLength(src, p + 1, q + 1, limit);
      OneMore(src, q, p, r);
      1 + r
  }

  lemma OneMore(src: seq<Byte>, q: nat, p: nat, r: nat)
    requires p < |src| && q < |src| && src[p] == src[q] && SameBytes(src, q + 1, p + 1, r)
    ensures SameBytes(src, q, p, r + 1) && (q < p ==> IsMatch(src, q, p, r + 1))
  {
    assert src[p..p + (r + 1)] == [src[p]] + src[p + 1..p + 1 + r];
    assert src[q..q + (r + 1)] == [src[q]] + src[q + 1..q + 1 + r];
    if q < p {
      SameIsMatch(src, q, p, r + 1);
    }
  }

  /** It is the longest: the same bytes up to the limit are no longer. */
  lemma CommonLengthIsLongest(src: seq<Byte>, p: nat, q: nat, limit: nat, len: nat)
    requires p <= limit <= |src| && q + (limit - p) <= |src| && p + len <= limit && SameBytes(src, q, p, len)
    ensures len <= CommonLength(src, p, q, limit)
  {
    hide CommonLength, SameBytes, IsMatch;
    var r := CommonLength(src, p, q, limit);
    if r < len {
      SameAt(src, q, p, len, r);
    }
  }

  lemma SameAt(src: seq<Byte>, q: nat, p: nat, len: nat, i: nat)
    requires SameBytes(src, q, p, len) && i < len
    ensures p + i < |src| && q + i < |src| && src[p + i] == src[q + i]
  {
    assert src[p..p + len][i] == src[q..q + len][i];
  }

  lemma {:induction false} CommonLengthSplit(src: seq<Byte>, p: nat, q: nat, limit: nat, k: nat)
    requires p + k <= limit <= |src| && q + (limit - p) <= |src|
    ensures SameBytes(src, q, p, k) ==> CommonLength(src, p, q, limit) == k + CommonLength(src, p + k, q + k, limit)
    ensures !SameBytes(src, q, p, k) ==> CommonLength(src, p, q, limit) < k
    decreases k
  {
    hide CommonLength, SameBytes, IsMatch;
    if k > 0 {
      CommonLengthStep(src, p, q, limit);
      if src[p] == src[q] {
        CommonLengthSplit(src, p + 1, q + 1, limit, k - 1);
        SameFromNext(src, q, p, k);
      } else if SameBytes(src, q, p, k) {
        SameAt(src, q, p, k, 0);
      }
    } else {
      SameNothing(src, q, p);
    }
  }

  lemma CommonLengthStep(src: seq<Byte>, p: nat, q: nat, limit: nat)
    requires p < limit <= |src| && q + (limit - p) <= |src|
    ensures CommonLength(src, p, q, limit) == if src[p] == src[q] then 1 + CommonLength(src, p + 1, q + 1, limit) else 0
  {
    hide SameBytes, IsMatch;
  }

  lemma SameNothing(src: seq<Byte>, q: nat, p: nat)
    requires p <= |src| && q <= |src|
    ensures SameBytes(src, q, p, 0)
  {
  }

  lemma SameFromNext(src: seq<Byte>, q: nat, p: nat, k: nat)
    requires k > 0 && p + k <= |src| && q + k <= |src| && src[p] == src[q]
    ensures SameBytes(src, q + 1, p + 1, k - 1) <==> SameBytes(src, q, p, k)
  {
    assert src[p..p + k] == [src[p]] + src[p + 1..p + 1 + (k - 1)];
    assert src[q..q + k] == [src[q]] + src[q + 1..q + 1 + (k - 1)];
    assert src[p..p + k][1..] == src[p + 1..p + 1 + (k - 1)] && src[q..q + k][1..] == src[q + 1..q + 1 + (k - 1)];
  }

  /** The number of equal bytes before the first difference of two unequal words
      (LZ4_NbCommonBytes of their exclusive or). */
  function NbCommonBytes(src: seq<Byte>, p: nat, q: nat, k: nat): (r: nat)
    requires p + k <= |src| && q + k <= |src| && !SameBytes(src, q, p, k)
    ensures r < k && forall limit :: p + k <= limit <= |src| && q + (limit - p) <= |src| ==> r == CommonLength(src, p, q, limit)
    decreases k
  {
    if src[p] != src[q] then 0
    else
      SameFromNext(src, q, p, k);
      1 + NbCommonBytes(src, p + 1, q + 1, k - 1)
  }

  /** Whether two words of `k` bytes are equal. */
  predicate SameWords(src: seq<Byte>, p: nat, q: nat, k: nat)
    requires p + k <= |src| && q + k <= |src|
    ensures SameWords(src, p, q, k) <==> SameBytes(src, q, p, k)
  {
    src[p..p + k] == src[q..q + k]
  }

  /** LZ4_count and LZ4HC_CommonLength: words of 8 bytes, then one of 4, one of 2, one byte. */
  method Count(src: seq<Byte>, pIn0: nat, pRef0: nat, limit: nat) returns (r: nat)
    requires pIn0 <= limit <= |src| && pRef0 + (limit - pIn0) <= |src|
    ensures r == CommonLength(src, pIn0, pRef0, limit)
  {
    hide CommonLength, SameBytes, IsMatch;
    var pIn, pRef := pIn0, pRef0;
    while pIn + (STEPSIZE - 1) < limit
      invariant pIn0 <= pIn <= limit && pIn - pRef == pIn0 - pRef0 && 0 <= pRef
      invariant CommonLength(src, pIn0, pRef0, limit) == pIn - pIn0 + CommonLength(src, pIn, pRef, limit)
    {
      CommonLengthSplit(src, pIn, pRef, limit, STEPSIZE);
      if !SameWords(src, pIn, pRef, STEPSIZE) {
        return pIn + NbCommonBytes(src, pIn, pRef, STEPSIZE) - pIn0;
      }
      pIn, pRef := pIn + STEPSIZE, pRef + STEPSIZE;
    }
    r := CountTail(src, pIn, pRef, limit);
    r := pIn + r - pIn0;
  }

  /** The end of the comparison, with less than a word left: 4 bytes, 2 bytes, one byte. */
  method CountTail(src: seq<Byte>, pIn0: nat, pRef0: nat, limit: nat) returns (r: nat)
    requires pIn0 <= limit <= |src| && pRef0 + (limit - pIn0) <= |src| && limit < pIn0 + STEPSIZE
    ensures r == CommonLength(src, pIn0, pRef0, limit)
  {
    hide CommonLength, SameBytes, IsMatch;
    var pIn, pRef := pIn0, pRef0;
    ghost var total := CommonLength(src, pIn, pRef, limit);
    if pIn + 3 < limit {
      CommonLengthSplit(src, pIn, pRef, limit, 4);
      if SameWords(src, pIn, pRef, 4) {
        pIn, pRef := pIn + 4, pRef + 4;
      }
    }
    assert total == pIn - pIn0 + CommonLength(src, pIn, pRef, limit) && CommonLength(src, pIn, pRef, limit) < 4;
    if pIn + 1 < limit {
      CommonLengthSplit(src, pIn, pRef, limit, 2);
      if SameWords(src, pIn, pRef, 2) {
        pIn, pRef := pIn + 2, pRef + 2;
      }
    }
    assert total == pIn - pIn0 + CommonLength(src, pIn, pRef, limit) && CommonLength(src, pIn, pRef, limit) < 2;
    r := CountLast(src, pIn, pRef, limit);
    r := pIn + r - pIn0;
  }

  method CountLast(src: seq<Byte>, pIn: nat, pRef: nat, limit: nat) returns (r: nat)
    requires pIn <= limit <= |src| && pRef + (limit - pIn) <= |src| && CommonLength(src, pIn, pRef, limit) < 2
    ensures r == CommonLength(src, pIn, pRef, limit)
  {
    hide CommonLength, SameBytes, IsMatch;
    r := 0;
    if pIn < limit {
      CommonLengthSplit(src, pIn, pRef, limit, 1);
      if SameWords(src, pIn, pRef, 1) {
        r := 1;
      }
    }
  }

  // ---------------------------------------------------------------- backwards

  lemma JoinMatches(src: seq<Byte>, c: nat, ip: nat, a: nat, b: nat)
    requires IsMatch(src, c, ip, a) && IsMatch(src, c + a, ip + a, b)
    ensures IsMatch(src, c, ip, a + b)
  {
    forall j | ip <= j < ip + a + b ensures src[j] == src[j - (ip - c)] {
      if j >= ip + a {
        assert src[j] == src[j - (ip + a - (c + a))];
      }
    }
  }

  lemma ShorterMatch(src: seq<Byte>, ref: nat, ip: nat, known: nat)
    requires IsMatch(src, ref, ip, known) && 4 <= known
    ensures ref < ip && IsMatch(src, ref, ip, 4) && IsMatch(src, ref + 4, ip + 4, known - 4)
  {
    forall j | ip + 4 <= j < ip + known ensures src[j] == src[j - (ip + 4 - (ref + 4))] {
      assert src[j] == src[j - (ip - ref)];
    }
  }

  /** How many bytes before `p` and before `q` are the same, down to `startLimit` for `p`. */
  function CommonBack(src: seq<Byte>, p: nat, q: nat, startLimit: nat): (r: nat)
    requires q < p <= |src|
    ensures r <= q && (startLimit <= p ==> startLimit + r <= p)
    ensures IsMatch(src, q - r, p - r, r)
  {
    if p > startLimit && q > 0 && src[p - 1] == src[q - 1] then
      var r := CommonBack(src, p - 1, q - 1, startLimit);
      JoinMatches(src, q - 1 - r, p - 1 - r, r, 1);
      r + 1
    else 0
  }
}
