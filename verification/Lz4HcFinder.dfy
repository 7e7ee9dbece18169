/** The match finder of the high-compression mode: a hash table of the latest position for
    every hash, and a chain table of backward steps that is indexed by the low 16 bits of
    the address and therefore wraps every 64K. */
module Lz4HcFinder {
  import opened Lz4Format
  import opened Lz4Count
  import opened Lz4Size

  const HASHTABLESIZE: nat := 0x8000
  const MAXD: nat := 0x1_0000

  /** HASH_FUNCTION: the top 15 bits of a 32-bit product. */
  function Hash(src: seq<Byte>, p: nat): (h: nat)
    requires p + 4 <= |src|
    ensures h < HASHTABLESIZE
  {
    Read32(src, p) * 2654435761 % 0x1_0000_0000 / 0x2_0000
  }

  /** How far the bytes at `ip` and at a candidate agree, when at least four do; zero otherwise. */
  function MatchLengthAt(src: seq<Byte>, c: nat, ip: nat, matchlimit: nat): (len: nat)
    requires c < ip && ip + MINMATCH <= matchlimit <= |src|
    ensures len == 0 || MINMATCH <= len
    ensures ip + len <= matchlimit && IsMatch(src, c, ip, len)
  {
    if Read32(src, c) != Read32(src, ip) then 0
    else
      Read32Equal(src, c, ip);
      var more := CommonLength(src, ip + MINMATCH, c + MINMATCH, matchlimit);
      JoinMatches(src, c, ip, MINMATCH, more);
      MINMATCH + more
  }

  /** It is exact: no match of four bytes or more at the candidate is longer. */
  lemma MatchLengthIsLongest(src: seq<Byte>, c: nat, ip: nat, matchlimit: nat, len: nat)
    requires c < ip && ip + MINMATCH <= matchlimit <= |src| && ip + len <= matchlimit
    requires IsMatch(src, c, ip, len) && MINMATCH <= len
    ensures len <= MatchLengthAt(src, c, ip, matchlimit)
  {
    assert IsMatch(src, c, ip, 4);
    Read32Equal(src, c, ip);
    assert IsMatch(src, c + 4, ip + 4, len - 4) by {
      forall j | ip + 4 <= j < ip + len ensures src[j] == src[j - (ip + 4 - (c + 4))] {
        assert src[j] == src[j - (ip - c)];
      }
    }
    SameIsMatch(src, c + 4, ip + 4, len - 4);
    CommonLengthIsLongest(src, ip + 4, c + 4, matchlimit, len - 4);
  }

  /** The length of the match at a candidate after it has been extended backwards. */
  function WideLengthAt(src: seq<Byte>, c: nat, ip: nat, startLimit: nat, matchlimit: nat): (len: nat)
    requires c < ip && startLimit <= ip && ip + MINMATCH <= matchlimit <= |src|
  {
    var forwards := MatchLengthAt(src, c, ip, matchlimit);
    if forwards == 0 then 0 else CommonBack(src, ip, c, startLimit) + forwards
  }

  // ---------------------------------------------------------------- the tables, as values

  /** DELTANEXT: the chain-table index of position `p` of a buffer at `address`. */
  function Slot(address: nat, p: nat): (r: nat)
    ensures r < MAXD
  {
    (address + p) % MAXD
  }

  lemma SlotsDiffer(address: nat, r: nat, p: nat)
    requires r < p < r + MAXD
    ensures Slot(address, r) != Slot(address, p)
  {
  }

  /** Both tables are right for the positions below `n`: hash heads are such positions, and
      the step stored for every position still owning its slot leads back to an earlier one.
      Position 0 is never entered; while nothing else has its slot, its step is too long. */
  ghost predicate Linked(hash: seq<nat>, chain: seq<nat>, address: nat, n: nat)
  {
    && 1 <= n && |hash| == HASHTABLESIZE && |chain| == MAXD
    && (forall h :: 0 <= h < HASHTABLESIZE ==> hash[h] < n)
    && (forall r: nat :: 1 <= r < n <= r + MAXD ==> 1 <= chain[Slot(address, r)] <= MAX_DISTANCE && chain[Slot(address, r)] <= r)
    && (n <= MAXD ==> chain[Slot(address, 0)] == MAX_DISTANCE)
  }

  /** A step written for position `p` keeps the tables right, one position further. */
  lemma StepKeepsLinked(hash: seq<nat>, chain: seq<nat>, address: nat, p: nat, delta: nat, hash': seq<nat>)
    requires Linked(hash, chain, address, p) && 1 <= delta <= MAX_DISTANCE && delta <= p
    requires |hash'| == |hash| && forall h :: 0 <= h < HASHTABLESIZE ==> hash'[h] < p + 1
    ensures Linked(hash', chain[Slot(address, p) := delta], address, p + 1)
  {
    var chain' := chain[Slot(address, p) := delta];
    forall r: nat | 1 <= r < p + 1 <= r + MAXD
      ensures 1 <= chain'[Slot(address, r)] <= MAX_DISTANCE && chain'[Slot(address, r)] <= r
    {
      if r < p {
        SlotsDiffer(address, r, p);
      }
    }
    if p + 1 <= MAXD {
      SlotsDiffer(address, 0, p);
    }
  }

  // ---------------------------------------------------------------- what is entered

  datatype Tables = Tables(hash: seq<nat>, chain: seq<nat>) {
    predicate HaveSizes() { |hash| == HASHTABLESIZE && |chain| == MAXD }
  }

  /** Enters a position: a step back to the head of its chain, or as far as a step can be. */
  function Enter(src: seq<Byte>, address: nat, t: Tables, p: nat): (r: Tables)
    requires t.HaveSizes() && p + 4 <= |src|
    ensures r.HaveSizes()
  {
    var h := Hash(src, p);
    var delta := if t.hash[h] <= p <= t.hash[h] + MAX_DISTANCE then p - t.hash[h] else MAX_DISTANCE;
    Tables(t.hash[h := p], t.chain[Slot(address, p) := delta])
  }

  function Entered(src: seq<Byte>, address: nat, t: Tables, p: nat, end: nat): (r: Tables)
    requires t.HaveSizes() && end + 3 <= |src|
    ensures r.HaveSizes()
    decreases end - p
  {
    if p >= end then t else Entered(src, address, Enter(src, address, t, p), p + 1, end)
  }

  /** The head of a chain is the latest position with its hash. */
  lemma {:induction false} HeadIsLatest(src: seq<Byte>, address: nat, t: Tables, p: nat, end: nat, q: nat)
    requires t.HaveSizes() && p <= q < end && end + 3 <= |src|
    ensures var head := Entered(src, address, t, p, end).hash[Hash(src, q)];
            q <= head < end && Hash(src, head) == Hash(src, q)
    decreases end - p
  {
    hide Hash;
    var next := Enter(src, address, t, p);
    if p < q {
      HeadIsLatest(src, address, next, p + 1, end, q);
    } else if exists r :: p < r < end && Hash(src, r) == Hash(src, p) {
      var r: nat :| p < r < end && Hash(src, r) == Hash(src, p);
      HeadIsLatest(src, address, next, p + 1, end, r);
    } else {
      HeadStays(src, address, next, p + 1, end, Hash(src, p));
    }
  }

  lemma {:induction false} HeadStays(src: seq<Byte>, address: nat, t: Tables, p: nat, end: nat, h: nat)
    requires t.HaveSizes() && end + 3 <= |src| && h < HASHTABLESIZE
    requires forall r :: p <= r < end ==> Hash(src, r) != h
    ensures Entered(src, address, t, p, end).hash[h] == t.hash[h]
    decreases end - p
  {
    hide Hash;
    if p < end {
      HeadStays(src, address, Enter(src, address, t, p), p + 1, end, h);
    }
  }

  /** Enters a position of a repetition: a step back by its distance; the last positions
      become hash heads, too. */
  function Preload(src: seq<Byte>, address: nat, t: Tables, p: nat, end: nat, delta: nat): (r: Tables)
    requires t.HaveSizes() && p + 4 <= |src|
    ensures r.HaveSizes()
  {
    Tables(if p + delta < end then t.hash else t.hash[Hash(src, p) := p], t.chain[Slot(address, p) := delta])
  }

  function Preloaded(src: seq<Byte>, address: nat, t: Tables, p: nat, end: nat, delta: nat): (r: Tables)
    requires t.HaveSizes() && end + 3 <= |src|
    ensures r.HaveSizes()
    decreases end - p
  {
    if p >= end then t else Preloaded(src, address, Preload(src, address, t, p, end, delta), p + 1, end, delta)
  }

  // ---------------------------------------------------------------- candidates

  /** GETNEXT: where the step stored in the slot of `p` leads. */
  function Back(chain: seq<nat>, address: nat, p: nat): int
    requires |chain| == MAXD
  {
    p - chain[Slot(address, p)]
  }

  /** The candidates a walk from `ref` examines for `ip`, at most `attempts` of them. */
  function Candidates(chain: seq<nat>, address: nat, ip: nat, ref: int, attempts: nat): seq<nat>
    requires |chain| == MAXD
    decreases attempts
  {
    if attempts == 0 || ref < 0 || ip - ref > MAX_DISTANCE then []
    else [ref] + Candidates(chain, address, ip, Back(chain, address, ref), attempts - 1)
  }

  /** A position the walk may go on from: an earlier one, or one too far away to be examined. */
  predicate InReach(ip: nat, ref: int)
  {
    ref < ip && (0 <= ref || ip - ref > MAX_DISTANCE)
  }

  lemma NextInReach(hash: seq<nat>, chain: seq<nat>, address: nat, ip: nat, ref: nat)
    requires Linked(hash, chain, address, ip) && ref < ip <= ref + MAX_DISTANCE
    ensures Back(chain, address, ref) < ref && InReach(ip, Back(chain, address, ref))
  {
  }

  /** Every candidate lies before `ip`, inside the buffer and at a distance that can be
      encoded: neither the wrapping of the chain table nor pre-loaded steps lead astray. */
  lemma {:induction false} CandidatesInRange(hash: seq<nat>, chain: seq<nat>, address: nat, ip: nat, ref: int, attempts: nat)
    requires Linked(hash, chain, address, ip) && InReach(ip, ref)
    ensures forall c :: c in Candidates(chain, address, ip, ref, attempts) ==> c < ip <= c + MAX_DISTANCE
    decreases attempts
  {
    if attempts > 0 && ref >= 0 && ip - ref <= MAX_DISTANCE {
      NextInReach(hash, chain, address, ip, ref);
      CandidatesInRange(hash, chain, address, ip, Back(chain, address, ref), attempts - 1);
    }
  }

  /** The candidates LZ4HC_InsertAndFindBestMatch examines: a head at most four bytes back is
      examined apart, and does not count as an attempt. */
  function Visited(hash: seq<nat>, chain: seq<nat>, address: nat, src: seq<Byte>, ip: nat, attempts: nat): seq<nat>
    requires |hash| == HASHTABLESIZE && |chain| == MAXD && ip + 4 <= |src|
  {
    var head := hash[Hash(src, ip)];
    if ip - head <= 4 then [head] + Candidates(chain, address, ip, Back(chain, address, head), attempts)
    else Candidates(chain, address, ip, head, attempts)
  }

  /** A head at most four bytes back with the same four bytes: a repetition. */
  predicate IsRepetition(src: seq<Byte>, hash: seq<nat>, ip: nat)
    requires |hash| == HASHTABLESIZE && ip + 4 <= |src|
  {
    var head := hash[Hash(src, ip)];
    head < ip <= head + 4 && Read32(src, head) == Read32(src, ip)
  }

  lemma HeadBefore(hash: seq<nat>, chain: seq<nat>, address: nat, ip: nat, h: nat)
    requires Linked(hash, chain, address, ip) && h < HASHTABLESIZE
    ensures hash[h] < ip
  {
  }

  /** The longest match at the visited positions, and where it is: (0, 0) if there is none. */
  function Best(src: seq<Byte>, visited: seq<nat>, ip: nat, matchlimit: nat): (r: (nat, nat))
    requires ip + MINMATCH <= matchlimit <= |src|
    ensures ip + r.0 <= matchlimit
  {
    if visited == [] then (0, 0)
    else BetterOf(src, Best(src, visited[..|visited| - 1], ip, matchlimit), visited[|visited| - 1], ip, matchlimit)
  }

  /** A candidate takes the place of a match if its own is longer. */
  function BetterOf(src: seq<Byte>, best: (nat, nat), c: nat, ip: nat, matchlimit: nat): (r: (nat, nat))
    requires ip + MINMATCH <= matchlimit <= |src|
    ensures ip + best.0 <= matchlimit ==> ip + r.0 <= matchlimit
  {
    if c < ip && MatchLengthAt(src, c, ip, matchlimit) > best.0 then (MatchLengthAt(src, c, ip, matchlimit), c) else best
  }

  lemma BestWith(src: seq<Byte>, done: seq<nat>, c: nat, ip: nat, matchlimit: nat)
    requires ip + MINMATCH <= matchlimit <= |src|
    ensures Best(src, done + [c], ip, matchlimit) == BetterOf(src, Best(src, done, ip, matchlimit), c, ip, matchlimit)
  {
    hide BetterOf;
    assert (done + [c])[..|done|] == done;
  }

  /** `ml` is the greatest match length at the visited positions, and `matchpos` the first that has it. */
  ghost predicate IsBest(src: seq<Byte>, visited: seq<nat>, ip: nat, matchlimit: nat, ml: nat, matchpos: nat)
    requires ip + MINMATCH <= matchlimit <= |src|
  {
    && (forall c :: c in visited && c < ip ==> MatchLengthAt(src, c, ip, matchlimit) <= ml)
    && (ml != 0 ==> matchpos < ip && MatchLengthAt(src, matchpos, ip, matchlimit) == ml && IsFirst(src, visited, ip, matchlimit, ml, matchpos))
  }

  /** Before `matchpos` no match of `ml` bytes is visited. */
  ghost predicate IsFirst(src: seq<Byte>, visited: seq<nat>, ip: nat, matchlimit: nat, ml: nat, matchpos: nat)
    requires ip + MINMATCH <= matchlimit <= |src|
  {
    exists j :: 0 <= j < |visited| && visited[j] == matchpos &&
                forall i :: 0 <= i < j && visited[i] < ip ==> MatchLengthAt(src, visited[i], ip, matchlimit) < ml
  }

  lemma {:induction false} BestIsBest(src: seq<Byte>, visited: seq<nat>, ip: nat, matchlimit: nat)
    requires ip + MINMATCH <= matchlimit <= |src|
    ensures var best := Best(src, visited, ip, matchlimit); IsBest(src, visited, ip, matchlimit, best.0, best.1)
  {
    hide MatchLengthAt;
    if visited != [] {
      var front, c := visited[..|visited| - 1], visited[|visited| - 1];
      BestIsBest(src, front, ip, matchlimit);
      var best := Best(src, front, ip, matchlimit);
      StaysFirst(src, front, c, ip, matchlimit, best.0, best.1);
      assert visited == front + [c];
      if c < ip && MatchLengthAt(src, c, ip, matchlimit) > best.0 {
        BecomesFirst(src, front, c, ip, matchlimit, MatchLengthAt(src, c, ip, matchlimit));
      }
    }
  }

  lemma StaysFirst(src: seq<Byte>, front: seq<nat>, c: nat, ip: nat, matchlimit: nat, ml: nat, matchpos: nat)
    requires ip + MINMATCH <= matchlimit <= |src|
    ensures IsFirst(src, front, ip, matchlimit, ml, matchpos) ==> IsFirst(src, front + [c], ip, matchlimit, ml, matchpos)
  {
    hide MatchLengthAt;
    if IsFirst(src, front, ip, matchlimit, ml, matchpos) {
      var j :| 0 <= j < |front| && front[j] == matchpos &&
               forall i :: 0 <= i < j && front[i] < ip ==> MatchLengthAt(src, front[i], ip, matchlimit) < ml;
      assert (front + [c])[j] == matchpos;
    }
  }

  lemma BecomesFirst(src: seq<Byte>, front: seq<nat>, c: nat, ip: nat, matchlimit: nat, ml: nat)
    requires ip + MINMATCH <= matchlimit <= |src|
    requires forall d :: d in front && d < ip ==> MatchLengthAt(src, d, ip, matchlimit) < ml
    ensures IsFirst(src, front + [c], ip, matchlimit, ml, c)
  {
    hide MatchLengthAt;
    var all := front + [c];
    assert all[|front|] == c;
    forall i | 0 <= i < |front| && all[i] < ip ensures MatchLengthAt(src, all[i], ip, matchlimit) < ml {
      assert all[i] == front[i] && front[i] in front;
    }
  }

  lemma BestIsVisited(src: seq<Byte>, visited: seq<nat>, ip: nat, matchlimit: nat)
    requires ip + MINMATCH <= matchlimit <= |src|
    ensures Best(src, visited, ip, matchlimit).0 != 0 ==> Best(src, visited, ip, matchlimit).1 in visited
  {
    hide MatchLengthAt, Best;
    BestIsBest(src, visited, ip, matchlimit);
  }

  lemma BestOfNone(src: seq<Byte>, candidates: seq<nat>, ip: nat, matchlimit: nat)
    requires ip + MINMATCH <= matchlimit <= |src|
    ensures Best(src, [], ip, matchlimit) == (0, 0) && [] + candidates == candidates
  {
  }

  lemma BestOfOne(src: seq<Byte>, c: nat, ip: nat, matchlimit: nat)
    requires c < ip && ip + MINMATCH <= matchlimit <= |src|
    ensures Best(src, [c], ip, matchlimit) ==
              if Read32(src, c) == Read32(src, ip) then (MatchLengthAt(src, c, ip, matchlimit), c) else (0, 0)
  {
    hide Read32, Best;
    BestOfNone(src, [], ip, matchlimit);
    BestWith(src, [], c, ip, matchlimit);
    assert [] + [c] == [c];
  }

  /** What the tables are after the search: a repetition enters the positions that it covers. */
  function AfterBest(src: seq<Byte>, address: nat, t: Tables, ip: nat, matchlimit: nat): (r: (Tables, nat))
    requires t.HaveSizes() && ip + MINMATCH <= matchlimit <= |src|
    ensures r.0.HaveSizes()
  {
    if IsRepetition(src, t.hash, ip) then
      var head := t.hash[Hash(src, ip)];
      var next := ip + MatchLengthAt(src, head, ip, matchlimit) - 3;
      (Preloaded(src, address, t, ip, next, ip - head), next)
    else (t, ip)
  }

  /** The best match is near enough to be written, and no shorter than a repetition. */
  lemma {:induction false} BestUsable(src: seq<Byte>, hash: seq<nat>, chain: seq<nat>, address: nat, ip: nat, matchlimit: nat, attempts: nat)
    requires |hash| == HASHTABLESIZE && |chain| == MAXD && Linked(hash, chain, address, ip) && ip + MINMATCH <= matchlimit <= |src|
    ensures hash[Hash(src, ip)] < ip
    ensures var best := Best(src, Visited(hash, chain, address, src, ip, attempts), ip, matchlimit);
            && (best.0 != 0 ==> MINMATCH <= best.0 && IsMatch(src, best.1, ip, best.0) && ip - best.1 <= MAX_DISTANCE)
            && (IsRepetition(src, hash, ip) ==> MatchLengthAt(src, hash[Hash(src, ip)], ip, matchlimit) <= best.0)
  {
    hide Linked, Best, MatchLengthAt, Hash, Candidates, Read32;
    var visited, head := Visited(hash, chain, address, src, ip, attempts), hash[Hash(src, ip)];
    HeadBefore(hash, chain, address, ip, Hash(src, ip));
    BestIsBest(src, visited, ip, matchlimit);
    VisitedInRange(hash, chain, address, src, ip, attempts);
    var best := Best(src, visited, ip, matchlimit);
    assert best.0 != 0 ==> best.1 in visited;
    assert IsRepetition(src, hash, ip) ==> head in visited;
  }

  lemma {:induction false} VisitedInRange(hash: seq<nat>, chain: seq<nat>, address: nat, src: seq<Byte>, ip: nat, attempts: nat)
    requires |hash| == HASHTABLESIZE && |chain| == MAXD && Linked(hash, chain, address, ip) && ip + 4 <= |src|
    ensures forall c :: c in Visited(hash, chain, address, src, ip, attempts) ==> c < ip <= c + MAX_DISTANCE
  {
    hide Linked, Hash, Candidates, Back;
    var head := hash[Hash(src, ip)];
    HeadBefore(hash, chain, address, ip, Hash(src, ip));
    if ip - head <= 4 {
      NextInReach(hash, chain, address, ip, head);
      CandidatesInRange(hash, chain, address, ip, Back(chain, address, head), attempts);
    } else {
      CandidatesInRange(hash, chain, address, ip, head, attempts);
    }
  }

  /** The widest match at the visited positions, extended backwards, where it begins, and where
      the earlier bytes do: (longest, 0, 0) if none is longer than `longest`. */
  function Widest(src: seq<Byte>, visited: seq<nat>, ip: nat, startLimit: nat, matchlimit: nat, longest: nat): (r: (nat, nat, nat))
    requires startLimit <= ip && ip + MINMATCH <= matchlimit <= |src|
  {
    if visited == [] then (longest, 0, 0)
    else WiderOf(src, Widest(src, visited[..|visited| - 1], ip, startLimit, matchlimit, longest), visited[|visited| - 1], ip, startLimit, matchlimit)
  }

  lemma WidestOfNone(src: seq<Byte>, ip: nat, startLimit: nat, matchlimit: nat, longest: nat)
    requires startLimit <= ip && ip + MINMATCH <= matchlimit <= |src|
    ensures Widest(src, [], ip, startLimit, matchlimit, longest) == (longest, 0, 0)
  {
  }

  function WiderOf(src: seq<Byte>, widest: (nat, nat, nat), c: nat, ip: nat, startLimit: nat, matchlimit: nat): (r: (nat, nat, nat))
    requires startLimit <= ip && ip + MINMATCH <= matchlimit <= |src|
  {
    if c < ip && WideLengthAt(src, c, ip, startLimit, matchlimit) > widest.0 then
      var back := CommonBack(src, ip, c, startLimit);
      (WideLengthAt(src, c, ip, startLimit, matchlimit), c - back, ip - back)
    else widest
  }

  lemma WidestWith(src: seq<Byte>, done: seq<nat>, c: nat, ip: nat, startLimit: nat, matchlimit: nat, longest: nat)
    requires startLimit <= ip && ip + MINMATCH <= matchlimit <= |src|
    ensures Widest(src, done + [c], ip, startLimit, matchlimit, longest) ==
              WiderOf(src, Widest(src, done, ip, startLimit, matchlimit, longest), c, ip, startLimit, matchlimit)
  {
    hide WiderOf;
    assert (done + [c])[..|done|] == done;
  }

  /** The same for matches extended backwards, among those longer than `longest`. */
  ghost predicate IsWidest(src: seq<Byte>, visited: seq<nat>, ip: nat, startLimit: nat, matchlimit: nat,
                           longest: nat, ml: nat, matchpos: nat, startpos: nat)
    requires startLimit <= ip && ip + MINMATCH <= matchlimit <= |src|
  {
    && longest <= ml
    && (forall c :: c in visited && c < ip ==> WideLengthAt(src, c, ip, startLimit, matchlimit) <= ml)
    && (longest < ml ==> IsFirstWide(src, visited, ip, startLimit, matchlimit, ml, matchpos, startpos))
  }

  /** The match is that of a visited position, before which none so wide is visited. */
  ghost predicate IsFirstWide(src: seq<Byte>, visited: seq<nat>, ip: nat, startLimit: nat, matchlimit: nat, ml: nat, matchpos: nat, startpos: nat)
    requires startLimit <= ip && ip + MINMATCH <= matchlimit <= |src|
  {
    exists j :: 0 <= j < |visited| && IsWideMatch(src, visited[j], ip, startLimit, matchlimit, ml, matchpos, startpos) &&
                forall i :: 0 <= i < j && visited[i] < ip ==> WideLengthAt(src, visited[i], ip, startLimit, matchlimit) < ml
  }

  /** The match of candidate `c`, extended backwards, is the one of `ml` bytes at `matchpos` and `startpos`. */
  ghost predicate IsWideMatch(src: seq<Byte>, c: nat, ip: nat, startLimit: nat, matchlimit: nat, ml: nat, matchpos: nat, startpos: nat)
    requires startLimit <= ip && ip + MINMATCH <= matchlimit <= |src|
  {
    && c < ip && ml == WideLengthAt(src, c, ip, startLimit, matchlimit) && MINMATCH <= ml
    && startLimit <= startpos <= ip && startpos - matchpos == ip - c
    && startpos + ml <= matchlimit && IsMatch(src, matchpos, startpos, ml)
  }

  /** The byte test that spares a comparison is safe: a candidate it passes over has no longer match. */
  lemma PassedOver(src: seq<Byte>, c: nat, ip: nat, matchlimit: nat, ml: nat)
    requires c < ip && ip + MINMATCH <= matchlimit < |src| && ip + ml <= matchlimit
    requires src[c + ml] != src[ip + ml]
    ensures MatchLengthAt(src, c, ip, matchlimit) <= ml
  {
    hide MatchLengthAt;
    var len := MatchLengthAt(src, c, ip, matchlimit);
    assert forall j :: ip <= j < ip + len ==> src[j] == src[j - (ip - c)];
    assert ip + ml - (ip - c) == c + ml;
  }

  /** So is the one for wider matches. */
  lemma PassedOverWide(src: seq<Byte>, c: nat, ip: nat, startLimit: nat, matchlimit: nat, longest: nat)
    requires c < ip && startLimit <= ip <= startLimit + longest < |src| && ip + MINMATCH <= matchlimit <= |src|
    requires src[startLimit + longest] != src[c - (ip - startLimit) + longest]
    ensures WideLengthAt(src, c, ip, startLimit, matchlimit) <= longest
  {
    hide MatchLengthAt, CommonBack;
    var forwards, back := MatchLengthAt(src, c, ip, matchlimit), CommonBack(src, ip, c, startLimit);
    var x := startLimit + longest;
    assert forall j :: ip <= j < ip + forwards ==> src[j] == src[j - (ip - c)];
    assert x - (ip - c) == c - (ip - startLimit) + longest;
  }

  lemma WideIsMatch(src: seq<Byte>, c: nat, ip: nat, startLimit: nat, matchlimit: nat, startt: nat, reft: nat)
    requires c < ip && startLimit <= ip && ip + MINMATCH <= matchlimit <= |src|
    requires MatchLengthAt(src, c, ip, matchlimit) != 0
    requires startt == ip - CommonBack(src, ip, c, startLimit) && reft == c - (ip - startt)
    ensures var len := ip + MatchLengthAt(src, c, ip, matchlimit) - startt;
            && len == WideLengthAt(src, c, ip, startLimit, matchlimit) && MINMATCH <= len
            && startLimit <= startt && startt + len <= matchlimit && IsMatch(src, reft, startt, len)
  {
    hide MatchLengthAt, CommonBack;
    JoinMatches(src, reft, startt, ip - startt, MatchLengthAt(src, c, ip, matchlimit));
  }

  lemma {:induction false} WidestIsWidest(src: seq<Byte>, visited: seq<nat>, ip: nat, startLimit: nat, matchlimit: nat, longest: nat)
    requires startLimit <= ip && ip + MINMATCH <= matchlimit <= |src|
    ensures var w := Widest(src, visited, ip, startLimit, matchlimit, longest);
            IsWidest(src, visited, ip, startLimit, matchlimit, longest, w.0, w.1, w.2)
  {
    hide WideLengthAt, IsWideMatch, WiderOf;
    if visited != [] {
      var front, c := visited[..|visited| - 1], visited[|visited| - 1];
      WidestIsWidest(src, front, ip, startLimit, matchlimit, longest);
      WidestWith(src, front, c, ip, startLimit, matchlimit, longest);
      assert visited == front + [c];
      Widened(src, front, c, ip, startLimit, matchlimit, longest, Widest(src, front, ip, startLimit, matchlimit, longest));
    }
  }

  lemma Widened(src: seq<Byte>, done: seq<nat>, c: nat, ip: nat, startLimit: nat, matchlimit: nat, longest: nat, w: (nat, nat, nat))
    requires startLimit <= ip && ip + MINMATCH <= matchlimit <= |src|
    requires IsWidest(src, done, ip, startLimit, matchlimit, longest, w.0, w.1, w.2)
    ensures var w' := WiderOf(src, w, c, ip, startLimit, matchlimit);
            IsWidest(src, done + [c], ip, startLimit, matchlimit, longest, w'.0, w'.1, w'.2)
  {
    hide WideLengthAt, IsWideMatch, CommonBack, IsFirstWide;
    assert forall d :: d in done + [c] ==> d in done || d == c;
    if c < ip && WideLengthAt(src, c, ip, startLimit, matchlimit) > w.0 {
      CandidateIsWide(src, c, ip, startLimit, matchlimit);
      var back := CommonBack(src, ip, c, startLimit);
      BecomesFirstWide(src, done, c, ip, startLimit, matchlimit, WideLengthAt(src, c, ip, startLimit, matchlimit), c - back, ip - back);
    } else {
      StaysFirstWide(src, done, c, ip, startLimit, matchlimit, w.0, w.1, w.2);
    }
  }

  lemma CandidateIsWide(src: seq<Byte>, c: nat, ip: nat, startLimit: nat, matchlimit: nat)
    requires c < ip && startLimit <= ip && ip + MINMATCH <= matchlimit <= |src| && WideLengthAt(src, c, ip, startLimit, matchlimit) > 0
    ensures var back := CommonBack(src, ip, c, startLimit);
            IsWideMatch(src, c, ip, startLimit, matchlimit, WideLengthAt(src, c, ip, startLimit, matchlimit), c - back, ip - back)
  {
    hide MatchLengthAt, CommonBack, IsMatch;
    var back := CommonBack(src, ip, c, startLimit);
    WideIsMatch(src, c, ip, startLimit, matchlimit, ip - back, c - back);
  }

  lemma FirstWideIn(src: seq<Byte>, visited: seq<nat>, ip: nat, startLimit: nat, matchlimit: nat, ml: nat, matchpos: nat, startpos: nat) returns (c: nat)
    requires startLimit <= ip && ip + MINMATCH <= matchlimit <= |src|
    requires IsFirstWide(src, visited, ip, startLimit, matchlimit, ml, matchpos, startpos)
    ensures c in visited && IsWideMatch(src, c, ip, startLimit, matchlimit, ml, matchpos, startpos)
  {
    hide WideLengthAt, IsWideMatch;
    var j :| 0 <= j < |visited| && IsWideMatch(src, visited[j], ip, startLimit, matchlimit, ml, matchpos, startpos) &&
             forall i :: 0 <= i < j && visited[i] < ip ==> WideLengthAt(src, visited[i], ip, startLimit, matchlimit) < ml;
    c := visited[j];
  }

  lemma StaysFirstWide(src: seq<Byte>, front: seq<nat>, c: nat, ip: nat, startLimit: nat, matchlimit: nat, ml: nat, matchpos: nat, startpos: nat)
    requires startLimit <= ip && ip + MINMATCH <= matchlimit <= |src|
    ensures IsFirstWide(src, front, ip, startLimit, matchlimit, ml, matchpos, startpos) ==>
              IsFirstWide(src, front + [c], ip, startLimit, matchlimit, ml, matchpos, startpos)
  {
    hide WideLengthAt, IsWideMatch;
    if IsFirstWide(src, front, ip, startLimit, matchlimit, ml, matchpos, startpos) {
      var j :| 0 <= j < |front| && IsWideMatch(src, front[j], ip, startLimit, matchlimit, ml, matchpos, startpos) &&
               forall i :: 0 <= i < j && front[i] < ip ==> WideLengthAt(src, front[i], ip, startLimit, matchlimit) < ml;
      assert (front + [c])[j] == front[j];
    }
  }

  lemma BecomesFirstWide(src: seq<Byte>, front: seq<nat>, c: nat, ip: nat, startLimit: nat, matchlimit: nat, ml: nat, matchpos: nat, startpos: nat)
    requires startLimit <= ip && ip + MINMATCH <= matchlimit <= |src|
    requires forall d :: d in front && d < ip ==> WideLengthAt(src, d, ip, startLimit, matchlimit) < ml
    requires IsWideMatch(src, c, ip, startLimit, matchlimit, ml, matchpos, startpos)
    ensures IsFirstWide(src, front + [c], ip, startLimit, matchlimit, ml, matchpos, startpos)
  {
    hide WideLengthAt, IsWideMatch;
    var all := front + [c];
    assert all[|front|] == c;
    forall i | 0 <= i < |front| && all[i] < ip ensures WideLengthAt(src, all[i], ip, startLimit, matchlimit) < ml {
      assert all[i] == front[i] && front[i] in front;
    }
  }

  // ---------------------------------------------------------------- the tables, in place

  /** LZ4HC_Data_Structure, for one input buffer that stands at `address`. */
  class MatchFinder {
    const src: seq<Byte>
    const address: nat
    const hashTable: array<nat>
    const chainTable: array<nat>
    var nextToUpdate: nat

    ghost predicate Valid()
      reads this, hashTable, chainTable
    {
      HasSizes() && |src| <= MAX_INT && Linked(hashTable[..], chainTable[..], address, nextToUpdate)
    }

    ghost predicate HasSizes()
    {
      hashTable.Length == HASHTABLESIZE && chainTable.Length == MAXD && hashTable != chainTable
    }

    ghost function Now(): Tables
      reads hashTable, chainTable
    {
      Tables(hashTable[..], chainTable[..])
    }

    /** LZ4_initHC. */
    constructor (src: seq<Byte>, address: nat)
      requires |src| <= MAX_INT
      ensures Valid() && nextToUpdate == 1 && this.src == src && this.address == address
      ensures fresh(hashTable) && fresh(chainTable)
      ensures Now() == Tables(seq(HASHTABLESIZE, _ => 0), seq(MAXD, _ => 0xFFFF))
    {
      this.src, this.address := src, address;
      hashTable := new nat[HASHTABLESIZE](_ => 0);
      chainTable := new nat[MAXD](_ => 0xFFFF);
      nextToUpdate := 1;
    }

    /** LZ4HC_Insert: enters the positions up to `ip`, excluded. */
    method Insert(ip: nat)
      requires Valid() && nextToUpdate <= ip && ip + 3 <= |src|
      modifies this`nextToUpdate, hashTable, chainTable
      ensures Valid() && nextToUpdate == ip && Now() == Entered(src, address, old(Now()), old(nextToUpdate), ip)
    {
      hide Linked, Enter;
      while nextToUpdate < ip
        invariant Valid() && nextToUpdate <= ip
        invariant Entered(src, address, Now(), nextToUpdate, ip) == Entered(src, address, old(Now()), old(nextToUpdate), ip)
      {
        EnterNext();
      }
    }

    method EnterNext()
      requires Valid() && nextToUpdate + 4 <= |src|
      modifies this`nextToUpdate, hashTable, chainTable
      ensures Valid() && nextToUpdate == old(nextToUpdate) + 1
      ensures Now() == Enter(src, address, old(Now()), old(nextToUpdate))
    {
      hide Hash;
      var p := nextToUpdate;
      var h := Hash(src, p);
      var delta: nat := p - hashTable[h];
      if delta > MAX_DISTANCE { delta := MAX_DISTANCE; }
      ghost var hash: seq<nat>, chain: seq<nat> := hashTable[..], chainTable[..];
      chainTable[Slot(address, p)] := delta % 0x1_0000;
      hashTable[h] := p % 0x1_0000_0000;
      nextToUpdate := nextToUpdate + 1;
      assert chainTable[..] == chain[Slot(address, p) := delta];
      assert hashTable[..] == hash[h := p];
      StepKeepsLinked(hash, chain, address, p, delta, hashTable[..]);
    }

    /** The length of a match whose first four bytes agree. */
    method Length(ref: nat, ip: nat, matchlimit: nat) returns (len: nat)
      requires ref < ip && ip + MINMATCH <= matchlimit <= |src| && Read32(src, ref) == Read32(src, ip)
      ensures len == MatchLengthAt(src, ref, ip, matchlimit) && MINMATCH <= len
    {
      len := Count(src, ip + MINMATCH, ref + MINMATCH, matchlimit);
      len := len + MINMATCH;
    }

    /** One candidate of the walk for the longest match. */
    method TryCandidate(ip: nat, matchlimit: nat, ref: nat, ml0: nat, matchpos0: nat) returns (ml: nat, matchpos: nat)
      requires ref < ip && ip + MINMATCH <= matchlimit < |src| && ip + ml0 <= matchlimit
      ensures (ml, matchpos) == BetterOf(src, (ml0, matchpos0), ref, ip, matchlimit)
    {
      ml, matchpos := ml0, matchpos0;
      if src[ref + ml] == src[ip + ml] {
        if Read32(src, ref) == Read32(src, ip) {
          var mlt := Length(ref, ip, matchlimit);
          if mlt > ml {
            ml, matchpos := mlt, ref;
          }
        }
      } else {
        PassedOver(src, ref, ip, matchlimit, ml);
      }
    }

    /** The search of LZ4HC_InsertAndFindBestMatch, once the table is up to date. `repl` is the
        length of a match at most four bytes back, `delta` its distance. */
    method FindBestMatch(ip: nat, matchlimit: nat, maxNbAttempts: nat) returns (ml: nat, matchpos: nat, repl: nat, delta: nat)
      requires Valid() && nextToUpdate == ip && ip + MINMATCH <= matchlimit < |src|
      ensures (ml, matchpos) == Best(src, Visited(hashTable[..], chainTable[..], address, src, ip, maxNbAttempts), ip, matchlimit)
      ensures (repl != 0 <==> IsRepetition(src, hashTable[..], ip))
      ensures repl != 0 ==> MINMATCH <= repl && 1 <= delta <= 4 && delta == ip - hashTable[Hash(src, ip)]
      ensures repl == if IsRepetition(src, hashTable[..], ip) then MatchLengthAt(src, hashTable[Hash(src, ip)], ip, matchlimit) else 0
    {
      hide MatchLengthAt, Candidates, Hash, Slot, Read32, Best;
      ghost var chain: seq<nat>, visited := chainTable[..], Visited(hashTable[..], chainTable[..], address, src, ip, maxNbAttempts);
      var ref: int := hashTable[Hash(src, ip)];
      ghost var done: seq<nat> := [];
      ml, matchpos, repl, delta := 0, 0, 0, 0;
      BestOfNone(src, visited, ip, matchlimit);
      if ip - ref <= 4 {
        done := [ref];
        if Read32(src, ref) == Read32(src, ip) {
          delta := ip - ref;
          ml := Length(ref, ip, matchlimit);
          repl, matchpos := ml, ref;
        }
        BestOfOne(src, ref, ip, matchlimit);
        NextInReach(hashTable[..], chain, address, ip, ref);
        ref := ref - chainTable[Slot(address, ref)];
      }
      ml, matchpos := WalkBest(ip, matchlimit, maxNbAttempts, ref, done, ml, matchpos);
    }

    /** The walk along the chain, for the longest match. */
    method WalkBest(ip: nat, matchlimit: nat, maxNbAttempts: nat, ref0: int, ghost done0: seq<nat>, ml0: nat, matchpos0: nat)
      returns (ml: nat, matchpos: nat)
      requires Valid() && nextToUpdate == ip && ip + MINMATCH <= matchlimit < |src| && InReach(ip, ref0)
      requires (ml0, matchpos0) == Best(src, done0, ip, matchlimit)
      ensures (ml, matchpos) == Best(src, done0 + Candidates(chainTable[..], address, ip, ref0, maxNbAttempts), ip, matchlimit)
    {
      hide Linked, Best, BetterOf;
      ghost var chain: seq<nat>, done: seq<nat>, visited: seq<nat> := chainTable[..], done0, done0 + Candidates(chainTable[..], address, ip, ref0, maxNbAttempts);
      var ref, nbAttempts := ref0, maxNbAttempts;
      ml, matchpos := ml0, matchpos0;
      while ip - ref <= MAX_DISTANCE && nbAttempts > 0
        invariant InReach(ip, ref)
        invariant visited == done + Candidates(chain, address, ip, ref, nbAttempts)
        invariant (ml, matchpos) == Best(src, done, ip, matchlimit)
        decreases nbAttempts
      {
        ghost var rest := Candidates(chain, address, ip, Back(chain, address, ref), nbAttempts - 1);
        assert done + ([ref] + rest) == (done + [ref]) + rest;
        nbAttempts := nbAttempts - 1;
        BestWith(src, done, ref, ip, matchlimit);
        ml, matchpos := TryCandidate(ip, matchlimit, ref, ml, matchpos);
        done := done + [ref];
        NextInReach(hashTable[..], chain, address, ip, ref);
        ref := ref - chainTable[Slot(address, ref)];
      }
      assert visited == done;
    }

    /** Completes the table after a repetition at distance `delta` of 1 to 4: every position
        the repetition covers steps back by `delta`, and the last ones become hash heads. */
    method CompleteTable(ip: nat, repl: nat, delta: nat)
      requires Valid() && nextToUpdate == ip && MINMATCH <= repl && ip + repl <= |src|
      requires 1 <= delta <= 4 && delta <= ip
      modifies this`nextToUpdate, hashTable, chainTable
      ensures Valid() && nextToUpdate == ip + repl - (MINMATCH - 1)
      ensures Now() == Preloaded(src, address, old(Now()), ip, nextToUpdate, delta)
    {
      hide Linked, Hash, Slot;
      var ptr, end := ip, ip + repl - (MINMATCH - 1);
      while ptr + delta < end
        invariant ip <= ptr < end && HasSizes() && Linked(hashTable[..], chainTable[..], address, ptr)
        invariant Preloaded(src, address, Now(), ptr, end, delta) == Preloaded(src, address, old(Now()), ip, end, delta)
      {
        StepBack(ptr, delta);
        ptr := ptr + 1;
      }
      while true
        invariant ip <= ptr < end <= ptr + delta && HasSizes() && Linked(hashTable[..], chainTable[..], address, ptr)
        invariant Preloaded(src, address, Now(), ptr, end, delta) == Preloaded(src, address, old(Now()), ip, end, delta)
        decreases end - ptr
      {
        StepBackHead(ptr, delta);
        ptr := ptr + 1;
        if ptr >= end { break; }
      }
      nextToUpdate := end;
    }

    method StepBack(p: nat, delta: nat)
      requires HasSizes() && Linked(hashTable[..], chainTable[..], address, p) && 1 <= delta <= 4 && delta <= p
      modifies chainTable
      ensures Linked(hashTable[..], chainTable[..], address, p + 1)
      ensures Now() == Tables(old(Now()).hash, old(Now()).chain[Slot(address, p) := delta])
    {
      ghost var hash: seq<nat>, chain: seq<nat> := hashTable[..], chainTable[..];
      chainTable[Slot(address, p)] := delta;
      assert chainTable[..] == chain[Slot(address, p) := delta];
      StepKeepsLinked(hash, chain, address, p, delta, hash);
    }

    method StepBackHead(p: nat, delta: nat)
      requires HasSizes() && Linked(hashTable[..], chainTable[..], address, p) && 1 <= delta <= 4 && delta <= p
      requires p + 4 <= |src| <= MAX_INT
      modifies hashTable, chainTable
      ensures Linked(hashTable[..], chainTable[..], address, p + 1)
      ensures Now() == Tables(old(Now()).hash[Hash(src, p) := p], old(Now()).chain[Slot(address, p) := delta])
    {
      hide Hash;
      ghost var hash: seq<nat>, chain: seq<nat> := hashTable[..], chainTable[..];
      chainTable[Slot(address, p)] := delta;
      var h := Hash(src, p);
      hashTable[h] := p % 0x1_0000_0000;
      assert chainTable[..] == chain[Slot(address, p) := delta];
      assert hashTable[..] == hash[h := p];
      StepKeepsLinked(hash, chain, address, p, delta, hashTable[..]);
    }

    /** LZ4HC_InsertAndFindBestMatch: zero, or the greatest match length at the candidates
        visited, and where it is; the tables hold the positions before `ip` and, after a
        repetition, those that it covers. */
    method InsertAndFindBestMatch(ip: nat, matchlimit: nat, maxNbAttempts: nat) returns (ml: nat, matchpos: nat)
      requires Valid() && nextToUpdate <= ip && ip + MINMATCH <= matchlimit < |src|
      modifies this`nextToUpdate, hashTable, chainTable
      ensures Valid() && ip <= nextToUpdate && (ml == 0 ==> nextToUpdate == ip)
      ensures ml != 0 ==> MINMATCH <= ml && nextToUpdate + 3 <= ip + ml <= matchlimit
      ensures ml != 0 ==> IsMatch(src, matchpos, ip, ml) && ip - matchpos <= MAX_DISTANCE
      ensures var t := Entered(src, address, old(Now()), old(nextToUpdate), ip);
              && (ml, matchpos) == Best(src, Visited(t.hash, t.chain, address, src, ip, maxNbAttempts), ip, matchlimit)
              && (Now(), nextToUpdate) == AfterBest(src, address, t, ip, matchlimit)
    {
      hide Linked, Entered, Preloaded, Candidates, Hash, Visited, IsBest, Best, MatchLengthAt;
      Insert(ip);
      ghost var hash: seq<nat>, chain: seq<nat> := hashTable[..], chainTable[..];
      BestUsable(src, hash, chain, address, ip, matchlimit, maxNbAttempts);
      var repl, delta;
      ml, matchpos, repl, delta := FindBestMatch(ip, matchlimit, maxNbAttempts);
      if repl != 0 {
        CompleteTable(ip, repl, delta);
      }
    }

    /** The loop that extends a match backwards. */
    method ExtendBack(ip: nat, ref: nat, startLimit: nat) returns (startt: nat, reft: nat)
      requires ref < ip <= |src|
      ensures startt == ip - CommonBack(src, ip, ref, startLimit) && reft == ref - (ip - startt)
    {
      startt, reft := ip, ref;
      while startt > startLimit && reft > 0 && src[startt - 1] == src[reft - 1]
        invariant startt <= ip && startt - reft == ip - ref
        invariant CommonBack(src, ip, ref, startLimit) == ip - startt + CommonBack(src, startt, reft, startLimit)
      {
        startt, reft := startt - 1, reft - 1;
      }
    }

    /** One candidate of the walk for a wider match. */
    method TryWider(ip: nat, startLimit: nat, matchlimit: nat, ref: nat, longest: nat, matchpos: nat, startpos: nat)
      returns (longest': nat, matchpos': nat, startpos': nat)
      requires ref < ip && ip + MINMATCH <= matchlimit <= |src| && startLimit <= ip <= startLimit + longest < |src|
      ensures (longest', matchpos', startpos') == WiderOf(src, (longest, matchpos, startpos), ref, ip, startLimit, matchlimit)
      ensures longest <= longest' && (longest' == longest || startLimit + longest' <= matchlimit)
    {
      hide CommonBack, IsMatch, CommonLength;
      longest', matchpos', startpos' := longest, matchpos, startpos;
      if src[startLimit + longest] == src[ref - (ip - startLimit) + longest] {
        if Read32(src, ref) == Read32(src, ip) {
          var len := Length(ref, ip, matchlimit);
          var startt, reft := ExtendBack(ip, ref, startLimit);
          var ipt := ip + len;
          WideIsMatch(src, ref, ip, startLimit, matchlimit, startt, reft);
          if ipt - startt > longest {
            longest', matchpos', startpos' := ipt - startt, reft, startt;
          }
        }
      } else {
        PassedOverWide(src, ref, ip, startLimit, matchlimit, longest);
      }
    }

    /** The walk along the chain, for a wider match. */
    method WalkWider(ip: nat, startLimit: nat, matchlimit: nat, longest: nat, maxNbAttempts: nat, ref0: int)
      returns (ml: nat, matchpos: nat, startpos: nat)
      requires Valid() && nextToUpdate == ip && ip + MINMATCH <= matchlimit < |src| && InReach(ip, ref0)
      requires startLimit <= ip <= startLimit + longest <= matchlimit
      ensures (ml, matchpos, startpos) ==
                Widest(src, Candidates(chainTable[..], address, ip, ref0, maxNbAttempts), ip, startLimit, matchlimit, longest)
    {
      hide Widest, WiderOf;
      ghost var chain: seq<nat> := chainTable[..];
      var ref: int, nbAttempts := ref0, maxNbAttempts;
      ghost var done: seq<nat>, visited: seq<nat> := [], Candidates(chain, address, ip, ref, nbAttempts);
      ml, matchpos, startpos := longest, 0, 0;
      WidestOfNone(src, ip, startLimit, matchlimit, longest);
      while ip - ref <= MAX_DISTANCE && nbAttempts > 0
        invariant InReach(ip, ref) && longest <= ml && startLimit + ml <= matchlimit
        invariant visited == done + Candidates(chain, address, ip, ref, nbAttempts)
        invariant (ml, matchpos, startpos) == Widest(src, done, ip, startLimit, matchlimit, longest)
        decreases nbAttempts
      {
        ghost var rest := Candidates(chain, address, ip, Back(chain, address, ref), nbAttempts - 1);
        assert done + ([ref] + rest) == (done + [ref]) + rest;
        nbAttempts := nbAttempts - 1;
        WidestWith(src, done, ref, ip, startLimit, matchlimit, longest);
        ml, matchpos, startpos := TryWider(ip, startLimit, matchlimit, ref, ml, matchpos, startpos);
        done := done + [ref];
        NextInReach(hashTable[..], chain, address, ip, ref);
        ref := ref - chainTable[Slot(address, ref)];
      }
      assert visited == done;
    }

    /** LZ4HC_InsertAndGetWiderMatch: `longest` unchanged, or the length of a longer match that
        begins between `startLimit` and `ip`. */
    method InsertAndGetWiderMatch(ip: nat, startLimit: nat, matchlimit: nat, longest: nat, maxNbAttempts: nat)
      returns (ml: nat, matchpos: nat, startpos: nat)
      requires Valid() && nextToUpdate <= ip && ip + MINMATCH <= matchlimit < |src|
      requires startLimit <= ip <= startLimit + longest <= matchlimit
      modifies this`nextToUpdate, hashTable, chainTable
      ensures Valid() && nextToUpdate == ip && Now() == Entered(src, address, old(Now()), old(nextToUpdate), ip)
      ensures (ml, matchpos, startpos) ==
                Widest(src, Candidates(chainTable[..], address, ip, hashTable[Hash(src, ip)], maxNbAttempts), ip, startLimit, matchlimit, longest)
    {
      hide Widest, Entered;
      Insert(ip);
      ml, matchpos, startpos := WalkWider(ip, startLimit, matchlimit, longest, maxNbAttempts, hashTable[Hash(src, ip)]);
    }
  }
}
