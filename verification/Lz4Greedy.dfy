/** The parse that LZ4_compress makes of a source, as a function: which sequences it writes,
    and what the matches of these are like. */
module Lz4Greedy {
  import opened Wrappers
  import opened Lz4Format
  import opened Lz4Count
  import opened Lz4Size

  const LZ4_MAX_INPUT_SIZE: nat := 0x7E00_0000
  const LZ4_64KLIMIT: nat := 0x1_0000 + (MFLIMIT - 1)
  const MIN_LENGTH: nat := MFLIMIT + 1

  // ---------------------------------------------------------------- the table

  /** LZ4_hashSequence: 13 bits for the 16-bit table, 12 bits for the 32-bit one. */
  function HashSequence(sequence: nat, byU16: bool): (h: nat)
    requires sequence < 0x1_0000_0000
    ensures h < if byU16 then 0x2000 else 0x1000
  {
    sequence * 2654435761 % 0x1_0000_0000 / if byU16 then 0x8_0000 else 0x10_0000
  }

  lemma HashExamples()
    ensures HashSequence(1, true) == 5062 && HashSequence(1, false) == 2531
    ensures HashSequence(0x6463_6261, true) == 3169 && HashSequence(0x6463_6261, false) == 1584
  {
  }

  function HashPosition(src: seq<Byte>, p: nat, byU16: bool): (h: nat)
    requires p + 4 <= |src|
    ensures h < if byU16 then 0x2000 else 0x1000
  {
    HashSequence(Read32(src, p), byU16)
  }

  function TableSize(byU16: bool): nat
  {
    if byU16 then 0x2000 else 0x1000
  }

  /** One cell per hash, with positions before `limit`. */
  ghost predicate IsTable(cells: seq<nat>, byU16: bool, limit: nat)
  {
    |cells| == TableSize(byU16) && forall h :: 0 <= h < |cells| ==> cells[h] < limit
  }

  /** The table with one more position. */
  ghost function Put(src: seq<Byte>, cells: seq<nat>, byU16: bool, p: nat): (r: seq<nat>)
    requires p + 4 <= |src| && |cells| == TableSize(byU16)
    ensures |r| == |cells|
  {
    cells[HashPosition(src, p, byU16) := p]
  }

  lemma PutKeeps(src: seq<Byte>, cells: seq<nat>, byU16: bool, p: nat, n: nat, m: nat)
    requires p + 4 <= |src| && IsTable(cells, byU16, n) && n <= m && p < m
    ensures IsTable(Put(src, cells, byU16, p), byU16, m) && IsTable(cells, byU16, m)
  {
    hide HashPosition;
  }

  lemma TableUpTo(cells: seq<nat>, byU16: bool, n: nat, m: nat)
    requires IsTable(cells, byU16, n) && n <= m
    ensures IsTable(cells, byU16, m)
  {
  }

  // ---------------------------------------------------------------- the search

  /** Whether a stored position can be used: near enough, which with 16-bit cells it always
      is, and with the same four bytes. */
  predicate Usable(src: seq<Byte>, ref: nat, ip: nat, byU16: bool)
    requires ref < ip && ip + 4 <= |src|
  {
    (byU16 || ip <= ref + 65535) && Read32(src, ref) == Read32(src, ip)
  }

  /** The search: at every position it probes, it looks up and replaces the position stored for
      these four bytes, and it stops at the first that can be used. The steps get longer with
      the number of probes. */
  ghost function Search(src: seq<Byte>, cells: seq<nat>, byU16: bool, ip: nat, step: nat, searchMatchNb: nat): (r: (Option<(nat, nat)>, seq<nat>))
    requires ip + 4 <= |src| && IsTable(cells, byU16, ip) && 1 <= step && 64 <= searchMatchNb
    ensures |r.1| == |cells|
    ensures r.0.Some? ==> var (at, ref) := r.0.value;
                          && ip <= at && at + MFLIMIT < |src| && ref < at && IsTable(r.1, byU16, at + 1)
                          && Usable(src, ref, at, byU16)
    decreases |src| - ip
  {
    if ip + step + MFLIMIT > |src| then (None, cells)
    else
      var ref, after := cells[HashPosition(src, ip, byU16)], Put(src, cells, byU16, ip);
      PutKeeps(src, cells, byU16, ip, ip, ip + 1);
      PutKeeps(src, cells, byU16, ip, ip, ip + step);
      if Usable(src, ref, ip, byU16) then (Some((ip, ref)), after)
      else Search(src, after, byU16, ip + step, searchMatchNb / 64, searchMatchNb + 1)
  }

  // ---------------------------------------------------------------- the parse

  /** How long the match of two positions is, at least four bytes of it known to agree. */
  function MatchLen(src: seq<Byte>, ref: nat, start: nat): (len: nat)
    requires ref < start && start + MINMATCH + LASTLITERALS <= |src|
    ensures MINMATCH <= len && start + len + LASTLITERALS <= |src|
  {
    MINMATCH + CommonLength(src, start + MINMATCH, ref + MINMATCH, |src| - LASTLITERALS)
  }

  lemma LenAtLeast(src: seq<Byte>, ref: nat, start: nat, known: nat)
    requires IsMatch(src, ref, start, known) && 4 <= known && start + known + LASTLITERALS <= |src|
    ensures ref < start && known <= MatchLen(src, ref, start)
  {
    hide CommonLength, IsMatch, SameBytes;
    ShorterMatch(src, ref, start, known);
    SameIsMatch(src, ref + 4, start + 4, known - 4);
    CommonLengthIsLongest(src, start + 4, ref + 4, |src| - LASTLITERALS, known - 4);
  }

  lemma FourMatch(src: seq<Byte>, ref: nat, at: nat)
    requires ref < at && at + 4 <= |src| && Read32(src, ref) == Read32(src, at)
    ensures IsMatch(src, ref, at, 4)
  {
    Read32Equal(src, ref, at);
  }

  /** What was extended backwards belongs to the match, too. */
  lemma BackLen(src: seq<Byte>, ref: nat, at: nat, anchor: nat)
    requires ref < at && anchor <= at && at + MFLIMIT <= |src| && Read32(src, ref) == Read32(src, at)
    ensures var back := CommonBack(src, at, ref, anchor);
            && back <= ref && anchor + back <= at
            && at + 4 <= at - back + MatchLen(src, ref - back, at - back)
  {
    hide MatchLen, CommonBack, IsMatch, Read32;
    var back := CommonBack(src, at, ref, anchor);
    FourMatch(src, ref, at);
    JoinMatches(src, ref - back, at - back, back, 4);
    LenAtLeast(src, ref - back, at - back, back + 4);
  }

  lemma FoundReady(src: seq<Byte>, cells: seq<nat>, byU16: bool, anchor: nat, at: nat, ref: nat, back: nat)
    requires anchor <= at && at + MFLIMIT <= |src| && ref < at && IsTable(cells, byU16, at + 1)
    requires Read32(src, ref) == Read32(src, at) && back == CommonBack(src, at, ref, anchor)
    ensures back <= ref && anchor + back <= at
    ensures IsTable(cells, byU16, at - back + MatchLen(src, ref - back, at - back))
  {
    hide Read32, IsTable, MatchLen, CommonBack, IsMatch;
    BackLen(src, ref, at, anchor);
    TableUpTo(cells, byU16, at + 1, at - back + MatchLen(src, ref - back, at - back));
  }

  /** The sequences written from `ip` on, the source up to `anchor` being done with. */
  ghost function ParseFrom(src: seq<Byte>, cells: seq<nat>, byU16: bool, anchor: nat, ip: nat): seq<Sequence>
    requires anchor <= ip && ip + 4 <= |src| && IsTable(cells, byU16, ip)
    decreases |src| - anchor, 2
  {
    hide Read32, IsTable, HashPosition;
    var (found, after) := Search(src, cells, byU16, ip, 1, 64);
    match found
    case None => []
    case Some((at, ref)) => ParseFound(src, after, byU16, anchor, at, ref)
  }

  /** The sequences written from the position on where the search has ended: the match grows
      backwards first, and forwards then. */
  ghost function ParseFound(src: seq<Byte>, cells: seq<nat>, byU16: bool, anchor: nat, at: nat, ref: nat): seq<Sequence>
    requires anchor <= at && at + MFLIMIT <= |src| && ref < at && IsTable(cells, byU16, at + 1)
    requires Read32(src, ref) == Read32(src, at)
    decreases |src| - anchor, 1
  {
    hide Read32, IsTable, MatchLen, CommonBack, IsMatch;
    var back := CommonBack(src, at, ref, anchor);
    FoundReady(src, cells, byU16, anchor, at, ref, back);
    ParseMatch(src, cells, byU16, anchor, at - back, ref - back)
  }

  /** The sequences written from a match on. */
  ghost function ParseMatch(src: seq<Byte>, cells: seq<nat>, byU16: bool, anchor: nat, start: nat, ref: nat): seq<Sequence>
    requires anchor <= start && ref < start && start + MINMATCH + LASTLITERALS <= |src|
    requires IsTable(cells, byU16, start + MatchLen(src, ref, start))
    decreases |src| - anchor, 0
  {
    var len := MatchLen(src, ref, start);
    [Sequence(src[anchor..start], start - ref, len)] + ParseBehind(src, cells, byU16, start + len)
  }

  /** The table behind a match: the position two before its end is entered, and that at its end. */
  ghost function NextTable(src: seq<Byte>, cells: seq<nat>, byU16: bool, end: nat): (r: seq<nat>)
    requires 2 <= end && end + MFLIMIT <= |src| && IsTable(cells, byU16, end)
    ensures IsTable(r, byU16, end + 1)
  {
    PutKeeps(src, cells, byU16, end - 2, end, end);
    PutKeeps(src, Put(src, cells, byU16, end - 2), byU16, end, end, end + 1);
    Put(src, Put(src, cells, byU16, end - 2), byU16, end)
  }

  /** What is looked up at the end of a match, the position two before it being entered. */
  ghost function NextRef(src: seq<Byte>, cells: seq<nat>, byU16: bool, end: nat): (r: nat)
    requires 2 <= end && end + MFLIMIT <= |src| && IsTable(cells, byU16, end)
    ensures r < end
  {
    PutKeeps(src, cells, byU16, end - 2, end, end);
    Put(src, cells, byU16, end - 2)[HashPosition(src, end, byU16)]
  }

  /** The sequences written behind a match: if the position at its end can be matched at once,
      the next match follows without literals. */
  ghost function ParseBehind(src: seq<Byte>, cells: seq<nat>, byU16: bool, end: nat): seq<Sequence>
    requires 2 <= end <= |src| && IsTable(cells, byU16, end)
    decreases |src| - end, 3
  {
    if end + MFLIMIT > |src| then []
    else
      hide HashPosition, IsTable;
      var ref, after := NextRef(src, cells, byU16, end), NextTable(src, cells, byU16, end);
      TableUpTo(after, byU16, end + 1, end + MatchLen(src, ref, end));
      if Usable(src, ref, end, false) then ParseMatch(src, after, byU16, end, end, ref)
      else ParseFrom(src, after, byU16, end, end + 1)
  }

  /** The table when the search begins: position 0 is entered. */
  ghost function FirstTable(src: seq<Byte>, byU16: bool): (r: seq<nat>)
    requires MIN_LENGTH <= |src|
    ensures IsTable(r, byU16, 1)
  {
    var zeros := seq(TableSize(byU16), _ => 0);
    PutKeeps(src, zeros, byU16, 0, 1, 1);
    Put(src, zeros, byU16, 0)
  }

  /** The whole parse: the search begins at position 1. */
  ghost function Parse(src: seq<Byte>, byU16: bool): seq<Sequence>
  {
    if |src| < MIN_LENGTH then [] else ParseFrom(src, FirstTable(src, byU16), byU16, 0, 1)
  }

  // ---------------------------------------------------------------- step by step

  lemma OneMore(ss: seq<Sequence>, s: Sequence, rest: seq<Sequence>)
    ensures ss + ([s] + rest) == ss + [s] + rest
  {
  }

  lemma ParseMatchIs(src: seq<Byte>, cells: seq<nat>, byU16: bool, anchor: nat, start: nat, ref: nat, ss: seq<Sequence>)
    requires anchor <= start && ref < start && start + MINMATCH + LASTLITERALS <= |src|
    requires IsTable(cells, byU16, start + MatchLen(src, ref, start))
    ensures var len := MatchLen(src, ref, start);
            ss + ParseMatch(src, cells, byU16, anchor, start, ref) ==
              ss + [Sequence(src[anchor..start], start - ref, len)] + ParseBehind(src, cells, byU16, start + len)
  {
    hide MatchLen, ParseBehind, IsTable;
    var len := MatchLen(src, ref, start);
    OneMore(ss, Sequence(src[anchor..start], start - ref, len), ParseBehind(src, cells, byU16, start + len));
  }

  lemma ParseBehindIs(src: seq<Byte>, cells: seq<nat>, byU16: bool, end: nat)
    requires 2 <= end <= |src| && IsTable(cells, byU16, end)
    ensures end + MFLIMIT > |src| ==> ParseBehind(src, cells, byU16, end) == []
    ensures end + MFLIMIT <= |src| ==>
              var ref, after := NextRef(src, cells, byU16, end), NextTable(src, cells, byU16, end);
              if Usable(src, ref, end, false)
              then IsTable(after, byU16, end + MatchLen(src, ref, end)) &&
                   ParseBehind(src, cells, byU16, end) == ParseMatch(src, after, byU16, end, end, ref)
              else ParseBehind(src, cells, byU16, end) == ParseFrom(src, after, byU16, end, end + 1)
  {
    hide MatchLen, Usable, IsTable, NextRef, NextTable, ParseMatch, ParseFrom;
    if end + MFLIMIT <= |src| {
      TableUpTo(NextTable(src, cells, byU16, end), byU16, end + 1, end + MatchLen(src, NextRef(src, cells, byU16, end), end));
    }
  }

  lemma ParseFoundIs(src: seq<Byte>, cells: seq<nat>, byU16: bool, anchor: nat, at: nat, ref: nat, start: nat, from: nat)
    requires anchor <= at && at + MFLIMIT <= |src| && ref < at && IsTable(cells, byU16, at + 1)
    requires Read32(src, ref) == Read32(src, at)
    requires start == at - CommonBack(src, at, ref, anchor) && from == ref - CommonBack(src, at, ref, anchor)
    ensures anchor <= start && from < start && start + 12 <= |src| && IsTable(cells, byU16, start + MatchLen(src, from, start))
    ensures at < start + MatchLen(src, from, start) && Read32(src, from) == Read32(src, start)
    ensures ParseFound(src, cells, byU16, anchor, at, ref) == ParseMatch(src, cells, byU16, anchor, start, from)
  {
    hide Read32, IsTable, MatchLen, CommonBack, IsMatch, ParseMatch;
    var back := CommonBack(src, at, ref, anchor);
    FoundReady(src, cells, byU16, anchor, at, ref, back);
    BackLen(src, ref, at, anchor);
    FourMatch(src, ref, at);
    JoinMatches(src, from, start, back, 4);
    Read32Equal(src, from, start);
    ShorterMatch(src, from, start, back + 4);
  }

  // ---------------------------------------------------------------- where it probes

  /** How far it is from the k-th probe to the next: one byte for 65 probes, and then for 64
      probes each a byte more. */
  function Step(k: nat): (r: nat)
    ensures r >= 1
  {
    if k == 0 then 1 else (63 + k) / 64
  }

  /** The position of the k-th probe of a search from `ip`. */
  function Probe(ip: nat, k: nat): (r: nat)
    ensures ip + k <= r
  {
    if k == 0 then ip else Probe(ip, k - 1) + Step(k - 1)
  }

  /** The table when the first `k` probes have been entered. */
  ghost function Probed(src: seq<Byte>, cells: seq<nat>, byU16: bool, ip: nat, k: nat): (r: seq<nat>)
    requires Probe(ip, k) + 4 <= |src| && IsTable(cells, byU16, ip)
    ensures IsTable(r, byU16, Probe(ip, k))
  {
    if k == 0 then cells
    else
      PutKeeps(src, Probed(src, cells, byU16, ip, k - 1), byU16, Probe(ip, k - 1), Probe(ip, k - 1), Probe(ip, k));
      Put(src, Probed(src, cells, byU16, ip, k - 1), byU16, Probe(ip, k - 1))
  }

  /** The position stored for the bytes of the k-th probe. */
  ghost function Stored(src: seq<Byte>, cells: seq<nat>, byU16: bool, ip: nat, k: nat): (r: nat)
    requires Probe(ip, k) + 4 <= |src| && IsTable(cells, byU16, ip)
    ensures r < Probe(ip, k)
  {
    Probed(src, cells, byU16, ip, k)[HashPosition(src, Probe(ip, k), byU16)]
  }

  /** The k-th probe is made, and finds nothing to use. */
  ghost predicate Misses(src: seq<Byte>, cells: seq<nat>, byU16: bool, ip: nat, k: nat)
    requires IsTable(cells, byU16, ip)
  {
    && Probe(ip, k + 1) + 12 <= |src|
    && (ProbeGrows(ip, k); !Usable(src, Stored(src, cells, byU16, ip, k), Probe(ip, k), byU16))
  }

  lemma ProbeGrows(ip: nat, k: nat)
    ensures Probe(ip, k) < Probe(ip, k + 1)
  {
  }

  /** The first `k` probes are made, and find nothing to use. */
  ghost predicate Passed(src: seq<Byte>, cells: seq<nat>, byU16: bool, ip: nat, k: nat)
    requires IsTable(cells, byU16, ip)
  {
    forall j :: 0 <= j < k ==> Misses(src, cells, byU16, ip, j)
  }

  lemma SearchStep(src: seq<Byte>, cells: seq<nat>, byU16: bool, ip: nat, step: nat, searchMatchNb: nat)
    requires ip + 4 <= |src| && IsTable(cells, byU16, ip) && 1 <= step && 64 <= searchMatchNb
    requires ip + step + 12 <= |src| && !Usable(src, cells[HashPosition(src, ip, byU16)], ip, byU16)
    ensures Search(src, cells, byU16, ip, step, searchMatchNb) ==
              Search(src, Put(src, cells, byU16, ip), byU16, ip + step, searchMatchNb / 64, searchMatchNb + 1)
  {
    hide HashPosition, Usable;
  }

  /** What is left of the search after `k` probes that found nothing. */
  lemma {:induction false} SearchAfter(src: seq<Byte>, cells: seq<nat>, byU16: bool, ip: nat, k: nat)
    requires ip + 4 <= |src| && IsTable(cells, byU16, ip) && Passed(src, cells, byU16, ip, k)
    ensures Probe(ip, k) + 4 <= |src|
    ensures Search(src, cells, byU16, ip, 1, 64) ==
              Search(src, Probed(src, cells, byU16, ip, k), byU16, Probe(ip, k), Step(k), 64 + k)
    decreases k
  {
    hide IsTable, Search, Misses;
    if k > 0 {
      SearchAfter(src, cells, byU16, ip, k - 1);
      assert Misses(src, cells, byU16, ip, k - 1);
      SearchMiss(src, cells, byU16, ip, k - 1);
    }
  }

  lemma SearchMiss(src: seq<Byte>, cells: seq<nat>, byU16: bool, ip: nat, k: nat)
    requires IsTable(cells, byU16, ip) && Misses(src, cells, byU16, ip, k)
    ensures Probe(ip, k + 1) + 4 <= |src|
    ensures Search(src, Probed(src, cells, byU16, ip, k), byU16, Probe(ip, k), Step(k), 64 + k) ==
              Search(src, Probed(src, cells, byU16, ip, k + 1), byU16, Probe(ip, k + 1), Step(k + 1), 65 + k)
  {
    hide IsTable, Usable, Put, HashPosition, Search, Step;
    SearchStep(src, Probed(src, cells, byU16, ip, k), byU16, Probe(ip, k), Step(k), 64 + k);
    NextStep(k + 1);
  }

  lemma NextStep(k: nat)
    requires k > 0
    ensures (63 + k) / 64 == Step(k)
  {
  }

  /** The search finds what the first probe finds that finds anything to use, as long as the
      probe after it is 12 bytes or more before the end of the source. */
  lemma {:induction false} SearchIs(src: seq<Byte>, cells: seq<nat>, byU16: bool, ip: nat) returns (k: nat)
    requires ip + 4 <= |src| && IsTable(cells, byU16, ip)
    ensures Passed(src, cells, byU16, ip, k) && Probe(ip, k) + 4 <= |src|
    ensures Search(src, cells, byU16, ip, 1, 64) ==
              if Probe(ip, k + 1) + 12 > |src| then (None, Probed(src, cells, byU16, ip, k))
              else (Some((Probe(ip, k), Stored(src, cells, byU16, ip, k))), Probed(src, cells, byU16, ip, k + 1))
    ensures Probe(ip, k + 1) + 12 <= |src| ==> Usable(src, Stored(src, cells, byU16, ip, k), Probe(ip, k), byU16)
  {
    hide Search, IsTable, Usable, Stored, Probed;
    k := 0;
    while Misses(src, cells, byU16, ip, k)
      invariant Passed(src, cells, byU16, ip, k) && Probe(ip, k) + 4 <= |src|
      decreases |src| - k
    {
      k := k + 1;
    }
    SearchAfter(src, cells, byU16, ip, k);
    ProbeGrows(ip, k);
    SearchEnds(src, cells, byU16, ip, k);
  }

  lemma SearchEnds(src: seq<Byte>, cells: seq<nat>, byU16: bool, ip: nat, k: nat)
    requires Probe(ip, k) + 4 <= |src| && IsTable(cells, byU16, ip) && !Misses(src, cells, byU16, ip, k)
    ensures Search(src, Probed(src, cells, byU16, ip, k), byU16, Probe(ip, k), Step(k), 64 + k) ==
              if Probe(ip, k + 1) + 12 > |src| then (None, Probed(src, cells, byU16, ip, k))
              else (Some((Probe(ip, k), Stored(src, cells, byU16, ip, k))), Probed(src, cells, byU16, ip, k + 1))
    ensures Probe(ip, k + 1) + 12 <= |src| ==> Usable(src, Stored(src, cells, byU16, ip, k), Probe(ip, k), byU16)
  {
    hide HashPosition, Usable, IsTable;
    ProbeGrows(ip, k);
  }

  // ---------------------------------------------------------------- what the matches are like

  /** The match of `s` at `start` goes on in neither direction: it ends 5 bytes before the end of
      the source or before a byte that differs, and behind literals it begins at the beginning of
      the source, for the earlier position, or behind a byte that differs. */
  predicate IsMaximal(src: seq<Byte>, s: Sequence, start: nat)
    requires 1 <= s.offset <= start && start + s.matchLength <= |src|
  {
    var end := start + s.matchLength;
    && (end + 5 == |src| || (end < |src| && src[end] != src[end - s.offset]))
    && (s.literals == [] || start == s.offset || src[start - 1] != src[start - 1 - s.offset])
  }

  /** From `pos` on, the sequences have maximal matches, each with the literals in front of it. */
  predicate AllMaximal(src: seq<Byte>, pos: nat, ss: seq<Sequence>)
    decreases |ss|
  {
    ss != [] ==>
      var s := ss[0];
      var start := pos + |s.literals|;
      && start + s.matchLength <= |src| && 1 <= s.offset <= start && s.literals == src[pos..start]
      && IsMaximal(src, s, start) && AllMaximal(src, start + s.matchLength, ss[1..])
  }

  lemma {:induction false} BackEnds(src: seq<Byte>, p: nat, q: nat, anchor: nat)
    requires q < p <= |src| && anchor <= p
    ensures var k := CommonBack(src, p, q, anchor); p - k == anchor || q == k || src[p - k - 1] != src[q - k - 1]
    decreases p
  {
    if p > anchor && q > 0 && src[p - 1] == src[q - 1] {
      BackEnds(src, p - 1, q - 1, anchor);
    }
  }

  lemma LenIsMaximal(src: seq<Byte>, anchor: nat, start: nat, ref: nat)
    requires anchor <= start && ref < start && start + MINMATCH + LASTLITERALS <= |src|
    requires start == anchor || ref == 0 || src[start - 1] != src[ref - 1]
    ensures IsMaximal(src, Sequence(src[anchor..start], start - ref, MatchLen(src, ref, start)), start)
  {
    hide CommonLength, IsMatch, SameBytes;
  }

  lemma {:induction false} ParseMatchMaximal(src: seq<Byte>, cells: seq<nat>, byU16: bool, anchor: nat, start: nat, ref: nat)
    requires anchor <= start && ref < start && start + MINMATCH + LASTLITERALS <= |src|
    requires IsTable(cells, byU16, start + MatchLen(src, ref, start))
    requires start == anchor || ref == 0 || src[start - 1] != src[ref - 1]
    ensures AllMaximal(src, anchor, ParseMatch(src, cells, byU16, anchor, start, ref))
    decreases |src| - anchor, 0
  {
    hide MatchLen, ParseBehind, AllMaximal, IsTable, IsMaximal;
    LenIsMaximal(src, anchor, start, ref);
    var len := MatchLen(src, ref, start);
    ParseBehindMaximal(src, cells, byU16, start + len);
    MoreMaximal(src, anchor, Sequence(src[anchor..start], start - ref, len), ParseBehind(src, cells, byU16, start + len));
  }

  lemma {:induction false} ParseBehindMaximal(src: seq<Byte>, cells: seq<nat>, byU16: bool, end: nat)
    requires 2 <= end <= |src| && IsTable(cells, byU16, end)
    ensures AllMaximal(src, end, ParseBehind(src, cells, byU16, end))
    decreases |src| - end, 3
  {
    hide ParseMatch, ParseFrom, NextRef, NextTable, IsTable, Usable, AllMaximal, MatchLen;
    NothingMaximal(src, end);
    if end + MFLIMIT <= |src| {
      var ref, after := NextRef(src, cells, byU16, end), NextTable(src, cells, byU16, end);
      TableUpTo(after, byU16, end + 1, end + MatchLen(src, ref, end));
      if Usable(src, ref, end, false) {
        ParseMatchMaximal(src, after, byU16, end, end, ref);
      } else {
        ParseFromMaximal(src, after, byU16, end, end + 1);
      }
    }
  }

  lemma {:induction false} ParseFromMaximal(src: seq<Byte>, cells: seq<nat>, byU16: bool, anchor: nat, ip: nat)
    requires anchor <= ip && ip + 4 <= |src| && IsTable(cells, byU16, ip)
    ensures AllMaximal(src, anchor, ParseFrom(src, cells, byU16, anchor, ip))
    decreases |src| - anchor, 2
  {
    hide Search, Put, HashPosition, IsTable, Read32, AllMaximal, ParseFound;
    var (found, after) := Search(src, cells, byU16, ip, 1, 64);
    if found.Some? {
      ParseFoundMaximal(src, after, byU16, anchor, found.value.0, found.value.1);
    } else {
      NothingMaximal(src, anchor);
    }
  }

  lemma {:induction false} ParseFoundMaximal(src: seq<Byte>, cells: seq<nat>, byU16: bool, anchor: nat, at: nat, ref: nat)
    requires anchor <= at && at + MFLIMIT <= |src| && ref < at && IsTable(cells, byU16, at + 1)
    requires Read32(src, ref) == Read32(src, at)
    ensures AllMaximal(src, anchor, ParseFound(src, cells, byU16, anchor, at, ref))
    decreases |src| - anchor, 1
  {
    hide CommonBack, IsTable, Read32, AllMaximal, MatchLen, ParseMatch, IsMatch;
    BackLen(src, ref, at, anchor);
    BackEnds(src, at, ref, anchor);
    var back := CommonBack(src, at, ref, anchor);
    TableUpTo(cells, byU16, at + 1, at - back + MatchLen(src, ref - back, at - back));
    ParseMatchMaximal(src, cells, byU16, anchor, at - back, ref - back);
  }

  lemma MoreMaximal(src: seq<Byte>, pos: nat, s: Sequence, rest: seq<Sequence>)
    requires var start := pos + |s.literals|;
             && start + s.matchLength <= |src| && 1 <= s.offset <= start && s.literals == src[pos..start]
             && IsMaximal(src, s, start) && AllMaximal(src, start + s.matchLength, rest)
    ensures AllMaximal(src, pos, [s] + rest)
  {
    assert ([s] + rest)[1..] == rest;
  }

  /** All matches of the parse are maximal. */
  lemma {:induction false} ParseMaximal(src: seq<Byte>, byU16: bool)
    ensures AllMaximal(src, 0, Parse(src, byU16))
  {
    hide ParseFrom, AllMaximal, FirstTable;
    if |src| >= MIN_LENGTH {
      ParseFromMaximal(src, FirstTable(src, byU16), byU16, 0, 1);
    } else {
      NothingMaximal(src, 0);
    }
  }

  lemma NothingMaximal(src: seq<Byte>, pos: nat)
    ensures AllMaximal(src, pos, [])
  {
  }

  // ---------------------------------------------------------------- behind a match

  /** The position two before the end of a match can be found at once: where nothing matches at
      the end, but the four bytes one behind it are those two before it, the next match is at
      distance 3. */
  lemma {:induction false} EnteredBehind(src: seq<Byte>, cells: seq<nat>, byU16: bool, end: nat)
    requires 2 <= end && end + 14 <= |src| && IsTable(cells, byU16, end)
    requires !Usable(src, NextRef(src, cells, byU16, end), end, false)
    requires Read32(src, end - 2) == Read32(src, end + 1) && HashPosition(src, end, byU16) != HashPosition(src, end + 1, byU16)
    ensures var ss := ParseBehind(src, cells, byU16, end);
            ss != [] && ss[0].offset == 3 && ss[0].literals <= [src[end]]
  {
    hide HashSequence, Read32, ParseMatch, MatchLen, Search, ParseFound;
    var after := NextTable(src, cells, byU16, end);
    FoundAtOnce(src, after, byU16, end + 1, end - 2);
    var back := CommonBack(src, end + 1, end - 2, end);
    ParseFoundIs(src, Put(src, after, byU16, end + 1), byU16, end, end + 1, end - 2, end + 1 - back, end - 2 - back);
    FirstOfMatch(src, Put(src, after, byU16, end + 1), byU16, end, end + 1 - back, end - 2 - back);
    assert src[end..end + 1] == [src[end]] && src[end..end] == [];
  }

  lemma FoundAtOnce(src: seq<Byte>, cells: seq<nat>, byU16: bool, ip: nat, ref: nat)
    requires ip + 13 <= |src| && IsTable(cells, byU16, ip) && ref < ip
    requires cells[HashPosition(src, ip, byU16)] == ref && Usable(src, ref, ip, byU16)
    ensures IsTable(Put(src, cells, byU16, ip), byU16, ip + 1)
    ensures Search(src, cells, byU16, ip, 1, 64) == (Some((ip, ref)), Put(src, cells, byU16, ip))
  {
    hide HashPosition, Usable;
    PutKeeps(src, cells, byU16, ip, ip, ip + 1);
  }

  lemma FirstOfMatch(src: seq<Byte>, cells: seq<nat>, byU16: bool, anchor: nat, start: nat, ref: nat)
    requires anchor <= start && ref < start && start + MINMATCH + LASTLITERALS <= |src|
    requires IsTable(cells, byU16, start + MatchLen(src, ref, start))
    ensures var ss := ParseMatch(src, cells, byU16, anchor, start, ref);
            ss != [] && ss[0] == Sequence(src[anchor..start], start - ref, MatchLen(src, ref, start))
  {
    hide ParseBehind, MatchLen;
  }

  // ---------------------------------------------------------------- equal bytes

  /** Of 14 or more equal bytes, all but the first and the last five are one match. */
  lemma {:induction false} ParseOfEqual(src: seq<Byte>, byU16: bool)
    requires 14 <= |src| && AllEqual(src)
    ensures Parse(src, byU16) == [Sequence([src[0]], 1, |src| - 6)]
  {
    hide Search, ParseFound;
    var after := Put(src, FirstTable(src, byU16), byU16, 1);
    FirstProbe(src, byU16);
    FirstFound(src, after, byU16);
  }

  lemma FirstProbe(src: seq<Byte>, byU16: bool)
    requires 14 <= |src| && AllEqual(src)
    ensures var after := Put(src, FirstTable(src, byU16), byU16, 1);
            && IsTable(after, byU16, 2) && Read32(src, 0) == Read32(src, 1)
            && Search(src, FirstTable(src, byU16), byU16, 1, 1, 64) == (Some((1, 0)), after)
  {
    hide HashSequence;
    var cells := FirstTable(src, byU16);
    assert Read32(src, 0) == Read32(src, 1);
    assert cells[HashPosition(src, 1, byU16)] == 0;
    PutKeeps(src, cells, byU16, 1, 1, 2);
  }

  lemma FirstFound(src: seq<Byte>, cells: seq<nat>, byU16: bool)
    requires 14 <= |src| && AllEqual(src) && IsTable(cells, byU16, 2) && Read32(src, 0) == Read32(src, 1)
    ensures ParseFound(src, cells, byU16, 0, 1, 0) == [Sequence([src[0]], 1, |src| - 6)]
  {
    hide MatchLen, CommonBack, ParseMatch, IsTable, Read32;
    EqualMatch(src);
    OnlyMatch(src, cells, byU16);
  }

  lemma EqualMatch(src: seq<Byte>)
    requires 14 <= |src| && AllEqual(src)
    ensures MatchLen(src, 0, 1) == |src| - 6 && CommonBack(src, 1, 0, 0) == 0
  {
    hide CommonLength;
    EqualBytes(src, 4, 5, |src| - 10);
    CommonLengthIsLongest(src, 5, 4, |src| - 5, |src| - 10);
  }

  lemma EqualBytes(src: seq<Byte>, q: nat, p: nat, len: nat)
    requires AllEqual(src) && q <= p && p + len <= |src|
    ensures SameBytes(src, q, p, len)
  {
  }

  lemma OnlyMatch(src: seq<Byte>, cells: seq<nat>, byU16: bool)
    requires 14 <= |src| && MatchLen(src, 0, 1) == |src| - 6 && IsTable(cells, byU16, 2)
    ensures IsTable(cells, byU16, 1 + MatchLen(src, 0, 1))
    ensures ParseMatch(src, cells, byU16, 0, 1, 0) == [Sequence([src[0]], 1, |src| - 6)]
  {
    hide MatchLen, NextRef, NextTable;
    assert src[0..1] == [src[0]];
    assert ParseBehind(src, cells, byU16, |src| - 5) == [];
  }
}
