/** What the high-compression parse achieves: which positions it passes, which repeats it
    cannot miss, what becomes of equal bytes, and where overlapping matches are cut. */
module Lz4HcLaws {
  import opened Wrappers
  import opened Lz4Format
  import opened Lz4Count
  import opened Lz4HcChains
  import opened Lz4HcFinder
  import opened Lz4HcParse
  import opened Lz4Margins
  import opened Lz4Size
  import Words

  // ---------------------------------------------------------------- where matches are cut

  function Min(a: int, b: int): int { if a < b then a else b }

  function Max(a: int, b: int): int { if a < b then b else a }

  /** The second match begins no earlier than the first one would end if cut to 18 bytes, except
      to keep four bytes. */
  lemma SeparateIs(m1: Match, m2: Match)
    requires 4 <= m1.len && 4 <= m2.len && m1.start <= m2.start && 8 <= m2.start - m1.start + m2.len
    ensures Separate(m1, m2).start == Max(m2.start, Min(m1.start + Min(m1.len, 18), m2.End() - 4))
  {
  }

  /** Of two matches that overlap the first is cut to the gap, or, if that is less than 15 bytes, to
      18 bytes, with four left for the second, which gives up the rest. */
  lemma DisjoinIs(m1: Match, m2: Match)
    requires 4 <= m1.len && 4 <= m2.len && m1.start + 4 <= m2.start
    ensures var (a, b) := Disjoin(m1, m2);
            if m2.start >= m1.End() then a == m1 && b == m2
            else if m2.start >= m1.start + 15 then a.End() == m2.start && b == m2
            else a.End() == Min(m1.start + Min(m1.len, 18), m2.End() - 4) && b.start == Max(m2.start, a.End())
  {
  }

  /** What is left of a second match behind the first: all of it, its end if that has four bytes,
      or nothing, and the third is taken. */
  lemma RemainderIs(m1: Match, m2: Match, m3: Match)
    ensures var r := Remainder(m1, m2, m3);
            if m1.End() <= m2.start then r == m2
            else if m1.End() + 4 <= m2.End() then r.start == m1.End() && r.End() == m2.End() && r.start - r.ref == m2.start - m2.ref
            else r == m3
  {
  }

  // ---------------------------------------------------------------- numbers

  /** The levels, in numbers: none or 0 means 256 candidates. */
  lemma Levels(shifted: nat)
    ensures MaxNbAttempts(0, shifted) == 256 && MaxNbAttempts(1, shifted) == 1 && MaxNbAttempts(9, shifted) == 256
    ensures MaxNbAttempts(16, shifted) == 32768 && MaxNbAttempts(17, shifted) == 65536 && MaxNbAttempts(1000, shifted) == 65536
    ensures MaxNbAttempts(-1, shifted) == shifted
  {
    Words.TwoToThe();
    Words.Pow2Add(7, 8);
    Words.Pow2Add(8, 8);
    assert Words.Pow2(8) == 2 * Words.Pow2(7) && Words.Pow2(0) == 1;
  }

  lemma HashExamples()
    ensures Hash([1, 0, 0, 0], 0) == 20251 && Hash([0x61, 0x62, 0x63, 0x64], 0) == 12678
  {
    assert Read32([1, 0, 0, 0], 0) == 1 && Read32([0x61, 0x62, 0x63, 0x64], 0) == 0x6463_6261;
  }

  // ---------------------------------------------------------------- what is passed

  /** A position is passed at the top of the main loop if and only if no visited candidate has
      the same four bytes; otherwise the longest match there is taken up. */
  lemma {:induction false} PassedIff(src: seq<Byte>, address: nat, attempts: nat, a: Node)
    requires NodeOk(src, a) && a.st.AtMain? && a.st.ip + 12 < |src|
    ensures a.t.HaveSizes()
    ensures var ip, t, st := a.st.ip, Entered(src, address, a.t, a.next, a.st.ip), NextNode(src, address, attempts, a).st;
            var visited := Visited(t.hash, t.chain, address, src, ip, attempts);
            && (st == AtMain(ip + 1) <==> forall c :: c in visited && c < ip ==> !SameFour(src, c, ip))
            && (st != AtMain(ip + 1) ==>
                  && st.AtSearch2? && st.m0 == st.m1 && st.m1.start == ip
                  && IsBest(src, visited, ip, |src| - 5, st.m1.len, st.m1.ref))
  {
    hide StateOk, Entered, Visited, Best, IsFirst, AfterBest, MatchLengthAt;
    MainIsNext(src, address, attempts, a);
    var ip, t := a.st.ip, Entered(src, address, a.t, a.next, a.st.ip);
    var visited := Visited(t.hash, t.chain, address, src, ip, attempts);
    BestIsBest(src, visited, ip, |src| - 5);
    BestIsVisited(src, visited, ip, |src| - 5);
    forall c: nat | c < ip ensures SameFour(src, c, ip) <==> MatchLengthAt(src, c, ip, |src| - 5) != 0 {
      FourIsMatch(src, c, ip);
    }
  }

  lemma FourIsMatch(src: seq<Byte>, c: nat, ip: nat)
    requires c < ip && ip + 12 < |src|
    ensures SameFour(src, c, ip) <==> MatchLengthAt(src, c, ip, |src| - 5) != 0
    ensures SameFour(src, c, ip) <==> Read32(src, c) == Read32(src, ip)
  {
    hide CommonLength;
    Read32Equal(src, c, ip);
    if IsMatch(src, c, ip, 4) {
      BytesOfMatch(src, c, ip);
    }
  }

  /** Some candidate has a match, extended backwards, that is longer than `longest`. */
  ghost predicate SomeWider(src: seq<Byte>, visited: seq<nat>, ip: nat, startLimit: nat, longest: nat)
    requires startLimit <= ip && ip + 9 <= |src|
  {
    exists c :: c in visited && c < ip && WideLengthAt(src, c, ip, startLimit, |src| - 5) > longest
  }

  lemma {:induction false} WidestIff(src: seq<Byte>, visited: seq<nat>, ip: nat, startLimit: nat, longest: nat)
    requires startLimit <= ip && ip + 9 <= |src|
    ensures var w := Widest(src, visited, ip, startLimit, |src| - 5, longest);
            && (w.0 != longest <==> SomeWider(src, visited, ip, startLimit, longest))
            && IsWidest(src, visited, ip, startLimit, |src| - 5, longest, w.0, w.1, w.2)
  {
    hide WideLengthAt, Widest, IsWideMatch, IsFirstWide;
    var w := Widest(src, visited, ip, startLimit, |src| - 5, longest);
    WidestIsWidest(src, visited, ip, startLimit, |src| - 5, longest);
    if w.0 != longest {
      var c := FirstWideIn(src, visited, ip, startLimit, |src| - 5, w.0, w.1, w.2);
      IsItsWidth(src, c, ip, startLimit, |src| - 5, w.0, w.1, w.2);
      assert WideLengthAt(src, c, ip, startLimit, |src| - 5) > longest;
    }
  }

  /** A match wider than `m` is searched for at the position `back` bytes before its end, and found if
      and only if a candidate there has one; it is the first of the widest. */
  lemma {:induction false} WiderIff(src: seq<Byte>, address: nat, attempts: nat, t: Tables, m: Match, back: nat, startLimit: nat)
    requires t.HaveSizes() && m.End() + 12 < |src| && startLimit + back <= m.End()
    ensures var ip, w := m.End() - back, Wider(src, address, attempts, t, m, back, startLimit);
            var visited := Candidates(t.chain, address, ip, t.hash[Hash(src, ip)], attempts);
            && (w.Some? <==> SomeWider(src, visited, ip, startLimit, m.len))
            && (w.Some? ==> IsWidest(src, visited, ip, startLimit, |src| - 5, m.len, w.value.len, w.value.ref, w.value.start))
  {
    hide SomeWider, Widest, Hash, Candidates, IsWidest;
    var ip := m.End() - back;
    WidestIff(src, Candidates(t.chain, address, ip, t.hash[Hash(src, ip)], attempts), ip, startLimit, m.len);
  }

  lemma IsItsWidth(src: seq<Byte>, c: nat, ip: nat, startLimit: nat, matchlimit: nat, ml: nat, matchpos: nat, startpos: nat)
    requires startLimit <= ip && ip + 4 <= matchlimit <= |src| && IsWideMatch(src, c, ip, startLimit, matchlimit, ml, matchpos, startpos)
    ensures c < ip && ml == WideLengthAt(src, c, ip, startLimit, matchlimit)
  {
  }

  /** At _Search2 the first match is written if and only if it ends 12 bytes or less before the end of
      the source, or no candidate for the position two before its end has a wider match that begins
      behind its first byte. */
  lemma {:induction false} FirstWrittenIff(src: seq<Byte>, address: nat, attempts: nat, a: Node)
    requires NodeOk(src, a) && a.st.AtSearch2?
    ensures var m1, b := a.st.m1, NextNode(src, address, attempts, a);
            && 2 <= m1.End() && m1.start + 3 <= m1.End() && a.anchor <= m1.start <= |src| && m1.ref < m1.start && a.t.HaveSizes()
            && (m1.End() + 12 >= |src| ==> b.st == AtMain(m1.End()))
            && (m1.End() + 12 < |src| ==>
                  var t, ip := Entered(src, address, a.t, a.next, m1.End() - 2), m1.End() - 2;
                  var visited := Candidates(t.chain, address, ip, t.hash[Hash(src, ip)], attempts);
                  b.st == AtMain(m1.End()) <==> !SomeWider(src, visited, ip, m1.start + 1, m1.len))
            && (b.st.AtMain? ==> b.ss == a.ss + [Sequence(src[a.anchor..m1.start], m1.start - m1.ref, m1.len)] && b.anchor == m1.End())
            && (!b.st.AtMain? ==> b.ss == a.ss && b.anchor == a.anchor)
  {
    hide StateOk, Entered, Wider, SomeWider, Candidates, Hash;
    StateBounds(src, a);
    var m1 := a.st.m1;
    if m1.End() + 12 < |src| {
      WiderIff(src, address, attempts, Entered(src, address, a.t, a.next, m1.End() - 2), m1, 2, m1.start + 1);
    }
    FirstIsBehind(src, a);
  }

  lemma FirstIsBehind(src: seq<Byte>, a: Node)
    requires NodeOk(src, a) && a.st.AtSearch2?
    ensures a.st.m1.ref < a.st.m1.start
  {
  }

  /** At _Search3, the second match having been moved behind the first, both are written if and only
      if no candidate for the position three before its end has a wider match that begins with it or
      behind. */
  lemma {:induction false} BothWrittenIff(src: seq<Byte>, address: nat, attempts: nat, a: Node)
    requires NodeOk(src, a) && a.st.AtSearch3?
    ensures var m1, m2 := a.st.m1, a.st.m2;
            && 4 <= m1.len && 4 <= m2.len && m1.start <= m2.start && 8 <= m2.start - m1.start + m2.len && a.t.HaveSizes()
            && var b, second := NextNode(src, address, attempts, a), Separate(m1, m2);
               && (second.End() + 12 >= |src| ==> b.st == AtMain(m2.End()))
               && (second.End() + 12 < |src| ==>
                     var t, ip := Entered(src, address, a.t, a.next, second.End() - 3), second.End() - 3;
                     var visited := Candidates(t.chain, address, ip, t.hash[Hash(src, ip)], attempts);
                     b.st == AtMain(m2.End()) <==> !SomeWider(src, visited, ip, second.start, second.len))
  {
    hide StateOk, Entered, Wider, SomeWider, Candidates, Hash, Separate, Remainder, Disjoin;
    StateBounds(src, a);
    var second := Separate(a.st.m1, a.st.m2);
    if second.End() + 12 < |src| {
      WiderIff(src, address, attempts, Entered(src, address, a.t, a.next, second.End() - 3), second, 3, second.start);
    }
  }

  /** What becomes of overlapping matches, in numbers: the saved match is taken up again, a first match
      of three bytes is kept and one of two is not; a second match keeps three bytes of its own. */
  lemma {:induction false} ChoiceExamples(src: seq<Byte>, a: Node)
    requires 100 <= |src| && a.anchor == 0
    ensures Search2Choice(src, a, Match(10, 0, 6), Match(11, 1, 8), Some(Match(16, 5, 9))).st == AtSearch3(Match(10, 0, 6), Match(16, 5, 9))
    ensures Search2Choice(src, a, Match(10, 0, 6), Match(11, 1, 8), Some(Match(17, 5, 9))).st == AtSearch3(Match(11, 1, 8), Match(17, 5, 9))
    ensures Search2Choice(src, a, Match(10, 0, 6), Match(11, 1, 8), Some(Match(12, 5, 9))).st == AtSearch2(Match(10, 0, 6), Match(12, 5, 9))
    ensures Search2Choice(src, a, Match(10, 0, 6), Match(11, 1, 8), Some(Match(13, 5, 9))).st == AtSearch3(Match(10, 0, 6), Match(13, 5, 9))
    ensures Search3Choice(src, a, Match(10, 0, 8), Match(15, 5, 9), Match(17, 2, 11)).st == AtSearch3(Match(10, 0, 8), Match(17, 2, 11))
    ensures Search3Choice(src, a, Match(10, 0, 8), Match(15, 5, 9), Match(18, 2, 11)).st == AtSearch2(Match(18, 8, 6), Match(18, 2, 11))
    ensures Search3Choice(src, a, Match(10, 0, 8), Match(15, 5, 9), Match(20, 2, 11)).st == AtSearch2(Match(18, 8, 6), Match(20, 2, 11))
    ensures Search3Choice(src, a, Match(10, 0, 8), Match(15, 5, 9), Match(21, 2, 11)).st == AtSearch3(Match(18, 8, 6), Match(21, 2, 11))
  {
  }

  // ---------------------------------------------------------------- repeats

  /** Four bytes that can begin a match are the same as four at most `d` bytes back. */
  ghost predicate RepeatsWithin(src: seq<Byte>, d: nat)
  {
    exists q: nat, p: nat :: q < p <= q + d && p + 12 < |src| && SameFour(src, q, p)
  }

  /** None of those before `ip` are. */
  ghost predicate NoneBefore(src: seq<Byte>, ip: nat, d: nat)
  {
    forall q: nat, p: nat :: q < p < ip && p <= q + d && p + 12 < |src| ==> !SameFour(src, q, p)
  }

  /** A match has been taken up or written. */
  predicate Committed(a: Node)
  {
    !a.st.AtMain? || a.ss != []
  }

  /** Every position so far has been passed, and the chains are whole. */
  ghost predicate Passing(src: seq<Byte>, address: nat, d: nat, a: Node)
  {
    && a.st.AtMain? && a.ss == [] && a.anchor == 0 && a.next <= a.st.ip
    && Chained(src, address, a.t, a.next) && NoneBefore(src, a.st.ip, d)
  }

  lemma SameFourHash(src: seq<Byte>, q: nat, p: nat)
    requires q <= p && p + 4 <= |src| && SameFour(src, q, p)
    ensures Hash(src, q) == Hash(src, p)
  {
    assert Read32(src, q) == Read32(src, p);
  }

  lemma {:induction false} PassingStep(src: seq<Byte>, address: nat, attempts: nat, a: Node, d: nat)
    requires NodeOk(src, a) && !AtEnd(src, a) && Passing(src, address, d, a) && d <= attempts && d <= 65535
    ensures var b := NextNode(src, address, attempts, a);
            if b.st.AtMain? then b.st.ip == a.st.ip + 1 && Passing(src, address, d, b) else RepeatsWithin(src, 65535)
  {
    hide Entered, Visited, Best, AfterBest, Chained, NoneBefore, StateOk, RepeatsWithin, SameFour;
    var ip := a.st.ip;
    ChainedEntered(src, address, a.t, a.next, ip);
    var t := Entered(src, address, a.t, a.next, ip);
    PassedIff(src, address, attempts, a);
    MainIsNext(src, address, attempts, a);
    if NextNode(src, address, attempts, a).st.AtMain? {
      NoRepetitionHere(src, address, attempts, t, ip);
      NoneHere(src, address, attempts, t, ip, d);
    } else {
      var c :| c in Visited(t.hash, t.chain, address, src, ip, attempts) && c < ip && SameFour(src, c, ip);
      RepeatHere(src, address, attempts, t, ip, c);
    }
  }

  lemma NoRepetitionHere(src: seq<Byte>, address: nat, attempts: nat, t: Tables, ip: nat)
    requires Chained(src, address, t, ip) && t.HaveSizes() && ip + 12 < |src|
    requires Best(src, Visited(t.hash, t.chain, address, src, ip, attempts), ip, |src| - 5).0 == 0
    ensures AfterBest(src, address, t, ip, |src| - 5) == (t, ip)
  {
    hide Hash, Chained, Visited, Best, Preloaded, Linked;
    ChainedIsLinked(src, address, t, ip);
    BestUsable(src, t.hash, t.chain, address, ip, |src| - 5, attempts);
  }

  lemma NoneHere(src: seq<Byte>, address: nat, attempts: nat, t: Tables, ip: nat, d: nat)
    requires Chained(src, address, t, ip) && t.HaveSizes() && ip + 12 < |src| && d <= attempts && d <= 65535
    requires forall c :: c in Visited(t.hash, t.chain, address, src, ip, attempts) && c < ip ==> !SameFour(src, c, ip)
    requires NoneBefore(src, ip, d)
    ensures NoneBefore(src, ip + 1, d)
  {
    hide Hash, Chained, Visited, SameFour;
    forall q: nat | q < ip <= q + d ensures !SameFour(src, q, ip) {
      if SameFour(src, q, ip) {
        SameFourHash(src, q, ip);
        AllVisited(src, address, t, ip, q, attempts);
      }
    }
  }

  lemma RepeatHere(src: seq<Byte>, address: nat, attempts: nat, t: Tables, ip: nat, c: nat)
    requires Chained(src, address, t, ip) && t.HaveSizes() && ip + 12 < |src|
    requires c in Visited(t.hash, t.chain, address, src, ip, attempts) && c < ip && SameFour(src, c, ip)
    ensures RepeatsWithin(src, 65535)
  {
    hide Hash, Chained, Visited, SameFour, Linked;
    ChainedIsLinked(src, address, t, ip);
    VisitedInRange(t.hash, t.chain, address, src, ip, attempts);
  }

  lemma CommittedStep(src: seq<Byte>, address: nat, attempts: nat, a: Node)
    requires NodeOk(src, a) && !AtEnd(src, a) && Committed(a)
    ensures Committed(NextNode(src, address, attempts, a))
  {
    hide Entered, Visited, Best, AfterBest, StateOk, Wider, Separate, Remainder;
    StateBounds(src, a);
  }

  lemma {:induction false} RunAt(src: seq<Byte>, address: nat, attempts: nat, run: seq<Node>, i: nat, d: nat)
    requires IsRun(src, address, attempts, run) && i < |run| && d <= attempts && d <= 65535 && 4 <= |src|
    ensures Passing(src, address, d, run[i]) || (Committed(run[i]) && RepeatsWithin(src, 65535))
    decreases i
  {
    hide NextNode, NodeOk, Passing, Committed, RepeatsWithin, AtEnd, StartNode;
    if i == 0 {
      StartPasses(src, address, d);
    } else {
      RunAt(src, address, attempts, run, i - 1, d);
      assert Goes(src, address, attempts, run[i - 1], run[i]);
      if Passing(src, address, d, run[i - 1]) {
        PassingStep(src, address, attempts, run[i - 1], d);
        SearchingIsCommitted(run[i]);
      } else {
        CommittedStep(src, address, attempts, run[i - 1]);
      }
    }
  }

  lemma SearchingIsCommitted(a: Node)
    ensures !a.st.AtMain? ==> Committed(a)
  {
  }

  lemma StartPasses(src: seq<Byte>, address: nat, d: nat)
    requires 4 <= |src|
    ensures Passing(src, address, d, StartNode())
  {
    hide Chained, SameFour;
    ChainedAtFirst(src, address);
  }

  /** Repeats as far back as there are attempts are not missed: some sequence is written. And
      nothing but repeats make a sequence. */
  lemma {:induction false} RepeatsAreFound(src: seq<Byte>, address: nat, attempts: nat, run: seq<Node>, d: nat)
    requires run != [] && IsRun(src, address, attempts, run) && AtEnd(src, run[|run| - 1]) && d <= attempts && d <= 65535
    ensures RepeatsWithin(src, d) ==> run[|run| - 1].ss != []
    ensures run[|run| - 1].ss != [] ==> RepeatsWithin(src, 65535)
  {
    hide IsRun, Chained, SameFour;
    var last := run[|run| - 1];
    if 4 <= |src| {
      RunAt(src, address, attempts, run, |run| - 1, d);
    } else {
      ShortRun(src, address, attempts, run);
    }
  }

  /** With an attempt for every position in reach it is exact. */
  lemma {:induction false} RepeatsFoundIff(src: seq<Byte>, address: nat, attempts: nat, run: seq<Node>)
    requires run != [] && IsRun(src, address, attempts, run) && AtEnd(src, run[|run| - 1]) && 65535 <= attempts
    ensures run[|run| - 1].ss != [] <==> RepeatsWithin(src, 65535)
  {
    hide IsRun, RepeatsWithin, AtEnd;
    RepeatsAreFound(src, address, attempts, run, 65535);
  }

  lemma ShortRun(src: seq<Byte>, address: nat, attempts: nat, run: seq<Node>)
    requires run != [] && IsRun(src, address, attempts, run) && |src| <= 13
    ensures run == [StartNode()]
  {
    hide NextNode, StateOk;
    assert |run| > 1 ==> Goes(src, address, attempts, run[0], run[1]);
  }

  // ---------------------------------------------------------------- equal bytes

  /** Of 14 or more equal bytes, all but the first and the last five are one match, at any level. */
  lemma {:induction false} RunOfEqual(src: seq<Byte>, address: nat, attempts: nat, run: seq<Node>)
    requires run != [] && IsRun(src, address, attempts, run) && AtEnd(src, run[|run| - 1]) && 14 <= |src| && AllEqual(src)
    ensures run[|run| - 1].ss == [Sequence([src[0]], 1, |src| - 6)]
  {
    hide NextNode, StateOk, AllEqual;
    var m := Match(1, 0, |src| - 6);
    assert run[0] == StartNode();
    assert |run| > 1 && Goes(src, address, attempts, run[0], run[1]);
    FirstOfEqual(src, address, attempts, run[0]);
    assert |run| > 2 && Goes(src, address, attempts, run[1], run[2]);
    SecondOfEqual(src, address, attempts, run[1]);
    assert |run| > 3 ==> Goes(src, address, attempts, run[2], run[3]);
  }

  lemma FirstOfEqual(src: seq<Byte>, address: nat, attempts: nat, a: Node)
    requires NodeOk(src, a) && a == StartNode() && 14 <= |src| && AllEqual(src)
    ensures var b := NextNode(src, address, attempts, a);
            b.st == AtSearch2(Match(1, 0, |src| - 6), Match(1, 0, |src| - 6)) && b.ss == [] && b.anchor == 0
  {
    hide StateOk, Preloaded, MatchLengthAt, Candidates, Hash, Slot, Best, AllEqual;
    MainIsNext(src, address, attempts, a);
    var visited := Visited(a.t.hash, a.t.chain, address, src, 1, attempts);
    assert Entered(src, address, a.t, 1, 1) == a.t;
    EqualLength(src);
    FirstVisited(src, address, attempts);
    BestIsFirst(src, visited, |src| - 5);
  }

  lemma FirstVisited(src: seq<Byte>, address: nat, attempts: nat)
    requires 14 <= |src|
    ensures var t := StartNode().t; Visited(t.hash, t.chain, address, src, 1, attempts) == [0]
  {
    hide Hash, Slot;
    var t := StartNode().t;
    assert Back(t.chain, address, 0) < 0;
    assert Candidates(t.chain, address, 1, Back(t.chain, address, 0), attempts) == [];
  }

  lemma EqualLength(src: seq<Byte>)
    requires 14 <= |src| && AllEqual(src)
    ensures MatchLengthAt(src, 0, 1, |src| - 5) == |src| - 6
  {
    hide CommonLength;
    assert Read32(src, 0) == Read32(src, 1);
    EqualAt(src, |src| - 10);
    CommonLengthIsLongest(src, 5, 4, |src| - 5, |src| - 10);
  }

  lemma EqualAt(src: seq<Byte>, len: nat)
    requires AllEqual(src) && 5 + len <= |src|
    ensures SameBytes(src, 4, 5, len)
  {
  }

  lemma BestIsFirst(src: seq<Byte>, visited: seq<nat>, matchlimit: nat)
    requires 5 <= matchlimit <= |src| && visited == [0]
    ensures Best(src, visited, 1, matchlimit) == if MatchLengthAt(src, 0, 1, matchlimit) == 0 then (0, 0) else (MatchLengthAt(src, 0, 1, matchlimit), 0)
  {
    hide MatchLengthAt;
    assert visited[..0] == [];
  }

  lemma SecondOfEqual(src: seq<Byte>, address: nat, attempts: nat, a: Node)
    requires NodeOk(src, a) && 14 <= |src| && a.st == AtSearch2(Match(1, 0, |src| - 6), Match(1, 0, |src| - 6)) && a.ss == [] && a.anchor == 0
    ensures var b := NextNode(src, address, attempts, a); AtEnd(src, b) && b.ss == [Sequence([src[0]], 1, |src| - 6)]
  {
    hide StateOk, Entered, Wider;
    assert src[0..1] == [src[0]];
  }

  // ---------------------------------------------------------------- the block

  /** What the parse makes of the block: repeats as far back as there are attempts keep it from
      being the literals alone, and only repeats do; of equal bytes it is small. */
  lemma {:induction false} ParsedBlock(bytes: seq<Byte>, src: seq<Byte>, address: nat, attempts: nat, d: nat)
    requires IsParsedBlock(bytes, src, address, attempts) && d <= attempts && d <= 65535
    ensures RepeatsWithin(src, d) ==> bytes != EncodeClosing(src)
    ensures bytes != EncodeClosing(src) ==> RepeatsWithin(src, 65535)
    ensures 14 <= |src| && AllEqual(src) ==> |bytes| == if |src| < 25 then 10 else 11 + (|src| - 25) / 255
  {
    hide IsRun, RepeatsWithin, AllEqual, EncodeClosing, IsBlockWith, AtEnd;
    var run: seq<Node> :| run != [] && IsRun(src, address, attempts, run) && IsResult(bytes, src, run[|run| - 1]);
    RepeatsAreFound(src, address, attempts, run, d);
    LiteralsAloneIff(bytes, src, run[|run| - 1].ss);
    if 14 <= |src| && AllEqual(src) {
      RunOfEqual(src, address, attempts, run);
      SizeOfEqual(bytes, src);
    }
  }
}
