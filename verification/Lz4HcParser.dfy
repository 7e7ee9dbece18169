/** LZ4HC_compress_generic: the lazy parser that compares up to three overlapping matches
    before it commits to one (the Search2 / Search3 cycles), without output limit. */
module Lz4HcParser {
  import opened Wrappers
  import opened Lz4Format
  import opened Lz4Count
  import opened Lz4Emit
  import opened Lz4HcFinder
  import opened Lz4HcLaws
  import opened Lz4HcParse
  import opened Lz4Size

  lemma WideResult(src: seq<Byte>, t: Tables, address: nat, attempts: nat, m: Match, back: nat, startLimit: nat)
    requires t.HaveSizes() && back <= m.End() && Linked(t.hash, t.chain, address, m.End() - back)
    requires m.End() + MFLIMIT < |src| && startLimit + back <= m.End()
    requires Wider(src, address, attempts, t, m, back, startLimit).Some?
    ensures var r := Wider(src, address, attempts, t, m, back, startLimit).value;
            m.len < r.len && startLimit <= r.start && r.start + back <= m.End() && (m.len >= MINMATCH ==> Good(src, r))
  {
    hide WideLengthAt, Widest, Linked, Hash, Candidates, IsMatch, IsFirstWide;
    var ip := m.End() - back;
    HeadBefore(t.hash, t.chain, address, ip, Hash(src, ip));
    CandidatesInRange(t.hash, t.chain, address, ip, t.hash[Hash(src, ip)], attempts);
    var visited := Candidates(t.chain, address, ip, t.hash[Hash(src, ip)], attempts);
    var w := Widest(src, visited, ip, startLimit, |src| - LASTLITERALS, m.len);
    WidestIsWidest(src, visited, ip, startLimit, |src| - LASTLITERALS, m.len);
    var c := FirstWideIn(src, visited, ip, startLimit, |src| - LASTLITERALS, w.0, w.1, w.2);
  }

  /** The search of _Search2, two bytes before the end of the first match, and of _Search3,
      three bytes before the end of the second. */
  method SearchWider(ctx: MatchFinder, m: Match, back: nat, startLimit: nat, maxNbAttempts: nat) returns (found: bool, r: Match)
    requires ctx.Valid() && back <= 3 && ctx.nextToUpdate + back <= m.End() && m.len >= MINMATCH
    requires m.End() + MFLIMIT < |ctx.src| && m.start <= startLimit && startLimit + back <= m.End()
    requires startLimit <= m.start + 1
    modifies ctx`nextToUpdate, ctx.hashTable, ctx.chainTable
    ensures ctx.Valid() && ctx.nextToUpdate + back == m.End()
    ensures found ==> Good(ctx.src, r) && m.len < r.len && startLimit <= r.start && r.start + back <= m.End()
    ensures ctx.Now() == Entered(ctx.src, ctx.address, old(ctx.Now()), old(ctx.nextToUpdate), m.End() - back)
    ensures (if found then Some(r) else None) == Wider(ctx.src, ctx.address, maxNbAttempts, ctx.Now(), m, back, startLimit)
  {
    hide Entered, Linked, Widest, Candidates, Hash, Good;
    var matchlimit := |ctx.src| - LASTLITERALS;
    var ip := m.End() - back;
    var ml, ref, start := ctx.InsertAndGetWiderMatch(ip, startLimit, matchlimit, m.len, maxNbAttempts);
    found, r := ml != m.len, Match(start, ref, ml);
    if found {
      WideResult(ctx.src, ctx.Now(), ctx.address, maxNbAttempts, m, back, startLimit);
    }
  }

  // ---------------------------------------------------------------- the steps

  /** The output written so far, with the sequences it encodes kept as a ghost. */
  ghost predicate OutputOk(src: seq<Byte>, dest: array<Byte>, op: nat, anchor: nat, ss: seq<Sequence>)
    reads dest
  {
    op <= dest.Length && CompressBound(|src|) <= dest.Length && Written(ss, dest[..op], src, anchor)
  }

  /** Writes one match. */
  method Encode(src: seq<Byte>, m: Match, dest: array<Byte>, anchor0: nat, op0: nat, ghost ss0: seq<Sequence>)
    returns (anchor: nat, op: nat, ghost ss: seq<Sequence>)
    requires OutputOk(src, dest, op0, anchor0, ss0) && Good(src, m) && anchor0 <= m.start
    modifies dest
    ensures OutputOk(src, dest, op, anchor, ss) && anchor == m.End() && op0 < op && CleanFrom(dest, op + 6)
    ensures m.start <= |src| && m.ref < m.start && ss == ss0 + [Sequence(src[anchor0..m.start], m.start - m.ref, m.len)]
  {
    hide Written;
    op, ss := PutSequence(src, anchor0, m.ref, m.start, m.len, dest, op0, ss0);
    anchor := m.End();
  }

  /** The top of the main loop. */
  method MainStep(ctx: MatchFinder, ip: nat, ghost a: Node, maxNbAttempts: nat) returns (st: State)
    requires ctx.Valid() && NodeOk(ctx.src, a) && a.st == AtMain(ip) && a.t == ctx.Now() && a.next == ctx.nextToUpdate
    requires ip + MFLIMIT < |ctx.src|
    modifies ctx`nextToUpdate, ctx.hashTable, ctx.chainTable
    ensures ctx.Valid() && StateOk(ctx.src, st, a.anchor, ctx.nextToUpdate) && ip < Furthest(st)
    ensures Node(st, ctx.Now(), ctx.nextToUpdate, a.anchor, a.ss) == MainNext(ctx.src, ctx.address, maxNbAttempts, a)
  {
    hide Entered, AfterBest, Best, Visited;
    var ml, ref := ctx.InsertAndFindBestMatch(ip, |ctx.src| - LASTLITERALS, maxNbAttempts);
    if ml == 0 {
      return AtMain(ip + 1);
    }
    var m := Match(ip, ref, ml);
    st := AtSearch2(m, m);
  }

  /** _Search2. */
  method Search2Step(ctx: MatchFinder, m0: Match, m1: Match, dest: array<Byte>, anchor0: nat, op0: nat, ghost a: Node, maxNbAttempts: nat)
    returns (st: State, anchor: nat, op: nat, ghost ss: seq<Sequence>)
    requires ctx.Valid() && NodeOk(ctx.src, a) && a == Node(AtSearch2(m0, m1), ctx.Now(), ctx.nextToUpdate, anchor0, a.ss)
    requires OutputOk(ctx.src, dest, op0, anchor0, a.ss)
    modifies ctx`nextToUpdate, ctx.hashTable, ctx.chainTable, dest
    ensures ctx.Valid() && StateOk(ctx.src, st, anchor, ctx.nextToUpdate)
    ensures Furthest(st) > m1.End() || (st == AtMain(m1.End()))
    ensures OutputOk(ctx.src, dest, op, anchor, ss) && op0 <= op && CleanFrom(dest, op + 6)
    ensures anchor0 <= anchor && (anchor == anchor0 ==> CleanFrom(dest, 0))
    ensures !AtEnd(ctx.src, a) && Node(st, ctx.Now(), ctx.nextToUpdate, anchor, ss) == NextNode(ctx.src, ctx.address, maxNbAttempts, a)
  {
    hide OutputOk, IsMatch, Entered, Wider;
    StateBounds(ctx.src, a);
    anchor, op, ss := anchor0, op0, a.ss;
    var found, m2 := false, m1;
    if m1.End() + MFLIMIT < |ctx.src| {
      found, m2 := SearchWider(ctx, m1, 2, m1.start + 1, maxNbAttempts);
    }
    if !found {
      anchor, op, ss := Encode(ctx.src, m1, dest, anchor, op, ss);
      return AtMain(m1.End()), anchor, op, ss;
    }
    var first := m1;
    if m0.start < m1.start {
      if m2.start < m1.start + m0.len {
        first := m0;
      }
    }
    if m2.start - first.start < 3 {
      st := AtSearch2(m0, m2);
    } else {
      st := AtSearch3(first, m2);
    }
  }

  /** _Search3 without a third match: both matches are written. */
  method WriteBoth(src: seq<Byte>, m1: Match, m2: Match, dest: array<Byte>, anchor0: nat, op0: nat, ghost a: Node)
    returns (st: State, anchor: nat, op: nat, ghost ss: seq<Sequence>)
    requires Good(src, m1) && Good(src, m2) && anchor0 <= m1.start && m1.start + MINMATCH <= m2.start
    requires a.anchor == anchor0 && OutputOk(src, dest, op0, anchor0, a.ss)
    modifies dest
    ensures st == AtMain(m2.End()) && anchor == m2.End() && anchor <= |src|
    ensures OutputOk(src, dest, op, anchor, ss) && op0 <= op && CleanFrom(dest, op + 6)
    ensures m1.start <= |src| && m1.ref <= m1.start && m2.start <= |src| && m2.ref <= m2.start
    ensures Node(st, a.t, a.next, anchor, ss) == BothWritten(src, a, m1, m2)
  {
    hide OutputOk, IsMatch;
    var first := m1;
    if m2.start < m1.End() {
      first := Shorter(m1, m2.start - m1.start);
      ShorterIsGood(src, m1, first.len);
    }
    anchor, op, ss := Encode(src, first, dest, anchor0, op0, a.ss);
    anchor, op, ss := Encode(src, m2, dest, anchor, op, ss);
    st := AtMain(m2.End());
  }

  /** _Search3 with a third match: what becomes of the three. */
  method ThreeMatches(src: seq<Byte>, m1: Match, m2: Match, m3: Match, dest: array<Byte>, anchor0: nat, op0: nat, ghost a: Node)
    returns (st: State, anchor: nat, op: nat, ghost ss: seq<Sequence>)
    requires Good(src, m1) && Good(src, m2) && Good(src, m3) && anchor0 <= m1.start && m1.start + MINMATCH <= m2.start
    requires m2.start <= m1.End() + 1 && (m2.start == m1.End() + 1 ==> MINMATCH < m2.len)
    requires m1.End() + MFLIMIT < |src| && m2.End() + MFLIMIT < |src|
    requires m2.len < m3.len && m2.start <= m3.start && m3.start + 3 <= m2.End() && a.next + 3 == m2.End()
    requires a.anchor == anchor0 && OutputOk(src, dest, op0, anchor0, a.ss)
    modifies dest
    ensures StateOk(src, st, anchor, a.next) && m2.End() < Furthest(st)
    ensures OutputOk(src, dest, op, anchor, ss) && op0 <= op && CleanFrom(dest, op + 6)
    ensures anchor0 <= anchor && (anchor == anchor0 ==> CleanFrom(dest, 0))
    ensures m1.ref <= m1.start && MINMATCH <= m1.len && MINMATCH <= m2.len
    ensures Node(st, a.t, a.next, anchor, ss) == Search3Choice(src, a, m1, m2, m3)
  {
    hide OutputOk, IsMatch, Good, Disjoin;
    anchor, op, ss := anchor0, op0, a.ss;
    GoodBounds(src, m1);
    GoodBounds(src, m2);
    GoodBounds(src, m3);
    if m3.start < m1.End() + 3 {
      if m3.start >= m1.End() {
        var m0 := Remainder(m1, m2, m3);
        RemainderIsGood(src, m1, m2, m3);
        anchor, op, ss := Encode(src, m1, dest, anchor, op, ss);
        st := AtSearch2(m0, m3);
      } else {
        st := AtSearch3(m1, m3);
      }
    } else {
      DisjoinIsGood(src, m1, m2);
      var (first, second) := Disjoin(m1, m2);
      anchor, op, ss := Encode(src, first, dest, anchor, op, ss);
      st := AtSearch3(second, m3);
    }
  }

  lemma GoodBounds(src: seq<Byte>, m: Match)
    requires Good(src, m)
    ensures m.ref < m.start && MINMATCH <= m.len && m.start + MFLIMIT <= |src| && m.End() + LASTLITERALS <= |src|
  {
  }

  /** _Search3. */
  method Search3Step(ctx: MatchFinder, m1: Match, m2: Match, dest: array<Byte>, anchor0: nat, op0: nat, ghost a: Node, maxNbAttempts: nat)
    returns (st: State, anchor: nat, op: nat, ghost ss: seq<Sequence>)
    requires ctx.Valid() && NodeOk(ctx.src, a) && a == Node(AtSearch3(m1, m2), ctx.Now(), ctx.nextToUpdate, anchor0, a.ss)
    requires OutputOk(ctx.src, dest, op0, anchor0, a.ss)
    modifies ctx`nextToUpdate, ctx.hashTable, ctx.chainTable, dest
    ensures ctx.Valid() && StateOk(ctx.src, st, anchor, ctx.nextToUpdate)
    ensures Furthest(st) > m2.End() || st == AtMain(m2.End())
    ensures OutputOk(ctx.src, dest, op, anchor, ss) && op0 <= op && CleanFrom(dest, op + 6)
    ensures anchor0 <= anchor && (anchor == anchor0 ==> CleanFrom(dest, 0))
    ensures !AtEnd(ctx.src, a) && Node(st, ctx.Now(), ctx.nextToUpdate, anchor, ss) == NextNode(ctx.src, ctx.address, maxNbAttempts, a)
  {
    hide OutputOk, IsMatch, Good, Entered, Wider, Separate, BothWritten, Search3Choice;
    StateBounds(ctx.src, a);
    anchor, op, ss := anchor0, op0, a.ss;
    GoodBounds(ctx.src, m1);
    GoodBounds(ctx.src, m2);
    SeparateIsGood(ctx.src, m1, m2);
    var second := Separate(m1, m2);
    var found, m3 := false, second;
    if second.End() + MFLIMIT < |ctx.src| {
      found, m3 := SearchWider(ctx, second, 3, second.start, maxNbAttempts);
    }
    ghost var b := a.(t := ctx.Now(), next := ctx.nextToUpdate);
    if !found {
      st, anchor, op, ss := WriteBoth(ctx.src, m1, second, dest, anchor, op, b);
    } else {
      st, anchor, op, ss := ThreeMatches(ctx.src, m1, second, m3, dest, anchor, op, b);
    }
  }

  lemma StartOk(src: seq<Byte>)
    ensures StateOk(src, AtMain(1), 0, 1)
  {
  }

  lemma FurthestBound(src: seq<Byte>, st: State, anchor: nat, nextToUpdate: nat)
    requires StateOk(src, st, anchor, nextToUpdate)
    ensures Furthest(st) <= |src| + 1
  {
  }

  lemma LiteralsLeft(ss: seq<Sequence>, bytes: seq<Byte>, src: seq<Byte>, anchor: nat)
    requires Written(ss, bytes, src, anchor)
    ensures anchor == 0 || anchor + LASTLITERALS <= |src|
  {
  }

  lemma ParsedBlockAtAny(bytes: seq<Byte>, src: seq<Byte>, address: nat, attempts: nat)
    requires IsParsedBlock(bytes, src, address, attempts)
    ensures forall d: nat :: d <= attempts && d <= 65535 && RepeatsWithin(src, d) ==> bytes != EncodeClosing(src)
    ensures bytes != EncodeClosing(src) ==> RepeatsWithin(src, 65535)
    ensures 14 <= |src| && AllEqual(src) ==> |bytes| == if |src| < 25 then 10 else 11 + (|src| - 25) / 255
  {
    hide IsParsedBlock, RepeatsWithin, EncodeClosing, AllEqual;
    ParsedBlock(bytes, src, address, attempts, 0);
    forall d: nat | d <= attempts && d <= 65535 && RepeatsWithin(src, d) ensures bytes != EncodeClosing(src) {
      ParsedBlock(bytes, src, address, attempts, d);
    }
  }

  /** LZ4HC_compress_generic on a fresh context (LZ4_compressHC2): it writes a block of `size`
      bytes that encodes the input, and nothing at or past that size. It ends on every input,
      since the furthest match end grows, or stays and the parser returns to the main loop. The
      answer is the size as an int: right if and only if it is at most MAX_INT, which it is for
      every source of up to MAX_FITTING bytes, and for no longer one without repeats. */
  method CompressHC(src: seq<Byte>, address: nat, dest: array<Byte>, compressionLevel: int, shifted: nat) returns (r: int, ghost size: nat)
    requires |src| <= MAX_INT && CompressBound(|src|) <= dest.Length
    modifies dest
    ensures 0 < size <= CompressBound(|src|) && IsBlockOf(dest[..size], src)
    ensures IsParsedBlock(dest[..size], src, address, MaxNbAttempts(compressionLevel, shifted))
    ensures forall d: nat :: d <= MaxNbAttempts(compressionLevel, shifted) && d <= 65535 && RepeatsWithin(src, d) ==> dest[..size] != EncodeClosing(src)
    ensures dest[..size] != EncodeClosing(src) ==> RepeatsWithin(src, 65535)
    ensures 14 <= |src| && AllEqual(src) ==> size == if |src| < 25 then 10 else 11 + (|src| - 25) / 255
    ensures CleanFrom(dest, size)
    ensures r == AsInt(size) && (if size <= MAX_INT then r == size else r < 0)
    ensures |src| <= MAX_FITTING ==> r == size
    ensures |src| > MAX_FITTING && NoRepeats(src) ==> r < 0
  {
    hide Written, IsBlockOf, IsBlockWith, StateOk, MaxNbAttempts, NoRepeats, LiteralSize, Goes, IsRun, NextNode, MainNext, IsParsedBlock, RepeatsWithin, AllEqual, EncodeClosing;
    var maxNbAttempts := MaxNbAttempts(compressionLevel, shifted);
    var ctx := new MatchFinder(src, address);
    var anchor: nat, op: nat, st := 0, 0, AtMain(1);
    ghost var ss: seq<Sequence> := [];
    WrittenNothing(src);
    assert dest[..0] == [];
    StartOk(src);
    ghost var run := [StartNode()];
    RunStarts(src, address, maxNbAttempts);
    while !st.AtMain? || st.ip + MFLIMIT < |src|
      invariant ctx.Valid() && ctx.src == src && StateOk(src, st, anchor, ctx.nextToUpdate)
      invariant fresh(ctx) && fresh(ctx.hashTable) && fresh(ctx.chainTable)
      invariant OutputOk(src, dest, op, anchor, ss) && Furthest(st) <= |src| + 1
      invariant CleanFrom(dest, if anchor == 0 then 0 else op + 6)
      invariant ctx.address == address && run != [] && IsRun(src, address, maxNbAttempts, run)
      invariant Node(st, ctx.Now(), ctx.nextToUpdate, anchor, ss) == run[|run| - 1]
      decreases |src| + 1 - Furthest(st), Rank(st)
    {
      ghost var a := run[|run| - 1];
      match st {
        case AtMain(ip) =>
          MainIsNext(src, address, maxNbAttempts, a);
          st := MainStep(ctx, ip, a, maxNbAttempts);
        case AtSearch2(m0, m1) =>
          st, anchor, op, ss := Search2Step(ctx, m0, m1, dest, anchor, op, a, maxNbAttempts);
        case AtSearch3(m1, m2) =>
          st, anchor, op, ss := Search3Step(ctx, m1, m2, dest, anchor, op, a, maxNbAttempts);
      }
      ghost var b := Node(st, ctx.Now(), ctx.nextToUpdate, anchor, ss);
      RunGoesOn(src, address, maxNbAttempts, run, b);
      run := run + [b];
      FurthestBound(src, st, anchor, ctx.nextToUpdate);
    }
    LiteralsLeft(ss, dest[..op], src, anchor);
    op := PutClosing(src, anchor, dest, op, ss);
    RunEnds(dest[..op], src, address, maxNbAttempts, run);
    BlockSize(dest[..op], src);
    LiteralSizeFitsIff(|src|);
    if NoRepeats(src) {
      LargestBlock(dest[..op], src);
    }
    ParsedBlockAtAny(dest[..op], src, address, maxNbAttempts);
    return AsInt(op), op;
  }
}
