/** The chains of the match finder, as long as no repetition has been entered: from any position
    they lead back through all earlier positions with the same hash, and no others. */
module Lz4HcChains {
  import opened Lz4Format
  import opened Lz4HcFinder

  /** The latest position before `n` with this hash. Position 0, which is never entered, stands at
      the end of every chain. */
  function Latest(src: seq<Byte>, h: nat, n: nat): (r: nat)
    requires n + 3 <= |src|
    ensures r == 0 || (r < n && Hash(src, r) == h)
  {
    if n <= 1 then 0 else if Hash(src, n - 1) == h then n - 1 else Latest(src, h, n - 1)
  }

  lemma {:induction false} NoneIsLater(src: seq<Byte>, h: nat, n: nat, q: nat)
    requires n + 3 <= |src| && q < n && (q == 0 || Hash(src, q) == h)
    ensures q <= Latest(src, h, n)
    decreases n
  {
    hide Hash;
    if n > 1 && q < n - 1 {
      NoneIsLater(src, h, n - 1, q);
    }
  }

  /** The step back from `r` to `l`, or as far as a step can be. */
  function StepTo(r: nat, l: nat): nat
    requires l <= r
  {
    if r - l > 65535 then 65535 else r - l
  }

  /** The heads are the latest positions before `n`, and the steps lead to the latest before. */
  ghost predicate Chained(src: seq<Byte>, address: nat, t: Tables, n: nat)
  {
    && t.HaveSizes() && 1 <= n && n + 3 <= |src|
    && (forall h: nat :: h < HASHTABLESIZE ==> t.hash[h] == Latest(src, h, n))
    && (forall r: nat :: 1 <= r < n <= r + MAXD ==> t.chain[Slot(address, r)] == StepTo(r, Latest(src, Hash(src, r), r)))
    && (n <= MAXD ==> t.chain[Slot(address, 0)] == 65535)
  }

  lemma ChainedIsLinked(src: seq<Byte>, address: nat, t: Tables, n: nat)
    requires Chained(src, address, t, n)
    ensures Linked(t.hash, t.chain, address, n)
  {
    hide Hash, Slot;
    forall h: nat | h < HASHTABLESIZE ensures t.hash[h] < n {
      assert t.hash[h] == Latest(src, h, n);
    }
    forall r: nat | 1 <= r < n <= r + MAXD
      ensures 1 <= t.chain[Slot(address, r)] <= MAX_DISTANCE && t.chain[Slot(address, r)] <= r
    {
      assert t.chain[Slot(address, r)] == StepTo(r, Latest(src, Hash(src, r), r));
    }
  }

  /** The fresh tables. */
  lemma ChainedAtFirst(src: seq<Byte>, address: nat)
    requires 4 <= |src|
    ensures Chained(src, address, Tables(seq(HASHTABLESIZE, _ => 0), seq(MAXD, _ => 0xFFFF)), 1)
  {
    hide Hash, Slot;
  }

  lemma EnterIs(src: seq<Byte>, address: nat, t: Tables, n: nat)
    requires Chained(src, address, t, n) && n + 4 <= |src|
    ensures Enter(src, address, t, n) ==
              Tables(t.hash[Hash(src, n) := n], t.chain[Slot(address, n) := StepTo(n, Latest(src, Hash(src, n), n))])
  {
    hide Hash, Slot, Latest;
    assert t.hash[Hash(src, n)] == Latest(src, Hash(src, n), n);
  }

  lemma ChainedEnter(src: seq<Byte>, address: nat, t: Tables, n: nat)
    requires Chained(src, address, t, n) && n + 4 <= |src|
    ensures Chained(src, address, Enter(src, address, t, n), n + 1)
  {
    hide Hash, Slot, Latest, Enter, StepTo;
    EnterIs(src, address, t, n);
    var t' := Enter(src, address, t, n);
    forall h: nat | h < HASHTABLESIZE ensures t'.hash[h] == Latest(src, h, n + 1) {
      LatestNext(src, h, n);
      assert t.hash[h] == Latest(src, h, n);
    }
    forall r: nat | 1 <= r < n + 1 <= r + MAXD ensures t'.chain[Slot(address, r)] == StepTo(r, Latest(src, Hash(src, r), r)) {
      if r < n {
        SlotsDiffer(address, r, n);
      }
    }
    if n + 1 <= MAXD {
      SlotsDiffer(address, 0, n);
    }
  }

  lemma LatestNext(src: seq<Byte>, h: nat, n: nat)
    requires 1 <= n && n + 4 <= |src|
    ensures Latest(src, h, n + 1) == if Hash(src, n) == h then n else Latest(src, h, n)
  {
    hide Hash;
  }

  lemma {:induction false} ChainedEntered(src: seq<Byte>, address: nat, t: Tables, p: nat, end: nat)
    requires Chained(src, address, t, p) && p <= end && end + 3 <= |src|
    ensures Chained(src, address, Entered(src, address, t, p, end), end)
    decreases end - p
  {
    hide Chained, Enter;
    assert t.HaveSizes() by { ChainedSizes(src, address, t, p); }
    if p < end {
      ChainedEnter(src, address, t, p);
      ChainedEntered(src, address, Enter(src, address, t, p), p + 1, end);
    }
  }

  lemma ChainedSizes(src: seq<Byte>, address: nat, t: Tables, n: nat)
    requires Chained(src, address, t, n)
    ensures t.HaveSizes() && n + 3 <= |src|
  {
  }

  lemma StepLeadsTo(src: seq<Byte>, address: nat, t: Tables, ip: nat, ref: nat, q: nat)
    requires Chained(src, address, t, ip) && q < ref < ip <= q + 65535 && (q == 0 || Hash(src, q) == Hash(src, ref))
    ensures q <= Back(t.chain, address, ref) == Latest(src, Hash(src, ref), ref) < ref
  {
    hide Hash, Slot;
    NoneIsLater(src, Hash(src, ref), ref, q);
    assert t.chain[Slot(address, ref)] == StepTo(ref, Latest(src, Hash(src, ref), ref));
  }

  /** The walk from a position visits every earlier one with the same hash, attempts permitting. */
  lemma {:induction false} WalkReaches(src: seq<Byte>, address: nat, t: Tables, ip: nat, ref: nat, q: nat, attempts: nat)
    requires Chained(src, address, t, ip) && q <= ref < ip <= q + 65535 && ref - q < attempts
    requires q == 0 || Hash(src, q) == Hash(src, ref)
    ensures q in Candidates(t.chain, address, ip, ref, attempts)
    decreases ref
  {
    hide Chained, Hash, Latest, Back;
    ChainedSizes(src, address, t, ip);
    if q < ref {
      StepLeadsTo(src, address, t, ip, ref, q);
      WalkReaches(src, address, t, ip, Latest(src, Hash(src, ref), ref), q, attempts - 1);
    }
  }

  /** Every earlier position with the same hash, up to `attempts` bytes back, is visited. */
  lemma {:induction false} AllVisited(src: seq<Byte>, address: nat, t: Tables, ip: nat, q: nat, attempts: nat)
    requires Chained(src, address, t, ip) && ip + 4 <= |src| && q < ip <= q + 65535 && ip - q <= attempts
    requires Hash(src, q) == Hash(src, ip)
    ensures t.HaveSizes() && q in Visited(t.hash, t.chain, address, src, ip, attempts)
  {
    hide Hash, Latest, Back, Candidates, Slot;
    var h := Hash(src, ip);
    var head := Latest(src, h, ip);
    assert t.hash[h] == head;
    NoneIsLater(src, h, ip, q);
    if ip - head > 4 {
      WalkReaches(src, address, t, ip, head, q, attempts);
    } else if q < head {
      StepLeadsTo(src, address, t, ip, head, q);
      WalkReaches(src, address, t, ip, Latest(src, h, head), q, attempts);
    }
  }

  // ---------------------------------------------------------------- the walk

  /** The walk goes back step by step, over at most `attempts` positions, and ends sooner only
      where it leaves the source or the distance of a match. */
  lemma {:induction false} CandidatesAre(chain: seq<nat>, address: nat, ip: nat, ref: int, attempts: nat)
    requires |chain| == MAXD
    ensures var cs := Candidates(chain, address, ip, ref, attempts);
            && |cs| <= attempts && (cs != [] ==> cs[0] == ref)
            && (forall i :: 0 < i < |cs| ==> cs[i] == Back(chain, address, cs[i - 1]))
            && (forall c :: c in cs ==> ip - c <= 65535)
            && (|cs| < attempts ==>
                  var next := if cs == [] then ref else Back(chain, address, cs[|cs| - 1]);
                  next < 0 || ip - next > 65535)
    decreases attempts
  {
    hide Slot, Back;
    if attempts > 0 && ref >= 0 && ip - ref <= 65535 {
      CandidatesAre(chain, address, ip, Back(chain, address, ref), attempts - 1);
    }
  }

  /** With no attempts left for others, a head up to four bytes back is examined all the same. */
  lemma HeadIsFree(hash: seq<nat>, chain: seq<nat>, address: nat, src: seq<Byte>, ip: nat)
    requires |hash| == HASHTABLESIZE && |chain| == MAXD && ip + 4 <= |src|
    ensures var head := hash[Hash(src, ip)];
            Visited(hash, chain, address, src, ip, 0) == if ip <= head + 4 then [head] else []
  {
    hide Hash, Back;
    assert Candidates(chain, address, ip, Back(chain, address, hash[Hash(src, ip)]), 0) == [];
  }

  // ---------------------------------------------------------------- repetitions

  /** Behind a repetition every position it covers steps back by its distance, and the last ones,
      one for each byte of the distance, are the heads of their chains. */
  lemma {:induction false} PreloadedAt(src: seq<Byte>, address: nat, t: Tables, p: nat, end: nat, delta: nat, q: nat)
    requires t.HaveSizes() && p <= q < end <= p + MAXD && end + 3 <= |src|
    ensures var r := Preloaded(src, address, t, p, end, delta);
            && r.chain[Slot(address, q)] == delta
            && (end <= q + delta ==> q <= r.hash[Hash(src, q)] < end && Hash(src, r.hash[Hash(src, q)]) == Hash(src, q))
    decreases end - p
  {
    hide Hash, Slot;
    var next := Preload(src, address, t, p, end, delta);
    if p < q {
      PreloadedAt(src, address, next, p + 1, end, delta, q);
    } else {
      StepStays(src, address, next, p + 1, end, delta, p);
      if exists r :: p < r < end && Hash(src, r) == Hash(src, p) {
        var r: nat :| p < r < end && Hash(src, r) == Hash(src, p);
        PreloadedAt(src, address, next, p + 1, end, delta, r);
      } else {
        PreloadedHeadStays(src, address, next, p + 1, end, delta, Hash(src, p));
      }
    }
  }

  lemma {:induction false} StepStays(src: seq<Byte>, address: nat, t: Tables, p: nat, end: nat, delta: nat, q: nat)
    requires t.HaveSizes() && q < p <= end <= q + MAXD && end + 3 <= |src|
    ensures Preloaded(src, address, t, p, end, delta).chain[Slot(address, q)] == t.chain[Slot(address, q)]
    decreases end - p
  {
    hide Hash, Slot;
    if p < end {
      SlotsDiffer(address, q, p);
      StepStays(src, address, Preload(src, address, t, p, end, delta), p + 1, end, delta, q);
    }
  }

  lemma {:induction false} PreloadedHeadStays(src: seq<Byte>, address: nat, t: Tables, p: nat, end: nat, delta: nat, h: nat)
    requires t.HaveSizes() && end + 3 <= |src| && h < HASHTABLESIZE
    requires forall r :: p <= r < end ==> Hash(src, r) != h
    ensures Preloaded(src, address, t, p, end, delta).hash[h] == t.hash[h]
    decreases end - p
  {
    hide Hash;
    if p < end {
      PreloadedHeadStays(src, address, Preload(src, address, t, p, end, delta), p + 1, end, delta, h);
    }
  }
}
