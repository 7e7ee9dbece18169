/** The parse that LZ4HC_compress_generic makes of a source, step by step as values: what is
    searched for, which of up to three overlapping matches are written, and how they are cut. */
module Lz4HcParse {
  import opened Wrappers
  import opened Lz4Format
  import opened Lz4Emit
  import opened Lz4HcFinder
  import opened Words

  const OPTIMAL_ML: nat := (ML_MASK - 1) + MINMATCH
  const MAX_COMPRESSION_LEVEL: nat := 16
  const LZ4HC_DEFAULT_COMPRESSIONLEVEL: nat := 8

  datatype Match = Match(start: nat, ref: nat, len: nat) {
    function End(): nat { start + len }
  }

  /** Where the parser is: at the top of the main loop, at _Search2 with the first match
      `m1` (and `m0` saved in case too much was skipped), or at _Search3 with two matches. */
  datatype State =
    | AtMain(ip: nat)
    | AtSearch2(m0: Match, m1: Match)
    | AtSearch3(m1: Match, m2: Match)

  ghost predicate Good(src: seq<Byte>, m: Match)
  {
    IsUsable(src, m.ref, m.start, m.len)
  }

  /** The number of candidates tried, by compression level. For a negative level the shift is
      not defined; `shifted` is whatever comes of it. (A negative count is no limit, since a walk
      always ends after 64K steps; any large number stands for it.) */
  function MaxNbAttempts(level: int, shifted: nat): nat
  {
    if level > MAX_COMPRESSION_LEVEL then Pow2(MAX_COMPRESSION_LEVEL)
    else if level > 0 then Pow2(level - 1)
    else if level == 0 then Pow2(LZ4HC_DEFAULT_COMPRESSIONLEVEL)
    else shifted
  }

  /** Levels above 16 do not behave as 16 does: they try twice as many candidates. */
  lemma {:induction false} LevelsAbove16(level: int, shifted: nat)
    requires level >= 16
    ensures MaxNbAttempts(level, shifted) == MaxNbAttempts(16, shifted) <==> level == 16
    ensures level > 16 ==> MaxNbAttempts(level, shifted) == 2 * MaxNbAttempts(16, shifted)
  {
    assert Pow2(16) == 2 * Pow2(15);
  }

  // ---------------------------------------------------------------- corrections

  /** The match without its first `k` bytes. */
  function Later(m: Match, k: nat): Match
    requires k <= m.len
  {
    Match(m.start + k, m.ref + k, m.len - k)
  }

  /** The match cut to `len` bytes. */
  function Shorter(m: Match, len: nat): Match
  {
    m.(len := len)
  }

  lemma LaterIsGood(src: seq<Byte>, m: Match, k: nat)
    requires Good(src, m) && k + MINMATCH <= m.len && m.start + k + MFLIMIT <= |src|
    ensures Good(src, Later(m, k))
  {
    forall j | m.start + k <= j < m.End() ensures src[j] == src[j - (m.start + k - (m.ref + k))] {
      assert src[j] == src[j - (m.start - m.ref)];
    }
  }

  lemma ShorterIsGood(src: seq<Byte>, m: Match, len: nat)
    requires Good(src, m) && MINMATCH <= len <= m.len
    ensures Good(src, Shorter(m, len))
  {
  }

  /** The correction made on entering _Search3: a second match that begins soon after the
      first is moved back, to where a first match of OPTIMAL_ML bytes at most would end. */
  function Separate(m1: Match, m2: Match): (r: Match)
    requires MINMATCH <= m1.len && MINMATCH <= m2.len && m1.start <= m2.start
    requires 8 <= m2.start - m1.start + m2.len
    ensures r.End() == m2.End() && m2.start <= r.start && m1.start + MINMATCH <= r.start && MINMATCH <= r.len
    ensures r.start <= m2.start || r.start <= m1.End()
    ensures r.ref - m2.ref == r.start - m2.start
  {
    var gap := m2.start - m1.start;
    if gap < OPTIMAL_ML then
      var capped := if m1.len > OPTIMAL_ML then OPTIMAL_ML else m1.len;
      var newMl := if m1.start + capped > m2.End() - MINMATCH then gap + m2.len - MINMATCH else capped;
      var correction := newMl - gap;
      if correction > 0 then Later(m2, correction) else m2
    else m2
  }

  /** The last correction before the first of three matches is written: afterwards the first
      two do not overlap. */
  function Disjoin(m1: Match, m2: Match): (r: (Match, Match))
    requires MINMATCH <= m1.len && MINMATCH <= m2.len && m1.start + MINMATCH <= m2.start
    ensures r.0.start == m1.start && r.0.ref == m1.ref && MINMATCH <= r.0.len <= m1.len && r.0.End() <= r.1.start
    ensures r.1.End() == m2.End() && m2.start <= r.1.start && MINMATCH <= r.1.len
    ensures r.1.start <= m2.start || r.1.start <= m1.End()
    ensures r.1.ref - m2.ref == r.1.start - m2.start
  {
    if m2.start < m1.End() then
      var gap := m2.start - m1.start;
      if gap < ML_MASK then
        var capped := if m1.len > OPTIMAL_ML then OPTIMAL_ML else m1.len;
        var ml := if m1.start + capped > m2.End() - MINMATCH then gap + m2.len - MINMATCH else capped;
        var correction := ml - gap;
        (Shorter(m1, ml), if correction > 0 then Later(m2, correction) else m2)
      else (Shorter(m1, gap), m2)
    else (m1, m2)
  }

  lemma SeparateIsGood(src: seq<Byte>, m1: Match, m2: Match)
    requires Good(src, m1) && Good(src, m2) && m1.start <= m2.start && 8 <= m2.start - m1.start + m2.len
    requires m1.End() + MFLIMIT <= |src|
    ensures Good(src, Separate(m1, m2))
  {
    var r := Separate(m1, m2);
    LaterIsGood(src, m2, r.start - m2.start);
  }

  lemma DisjoinIsGood(src: seq<Byte>, m1: Match, m2: Match)
    requires Good(src, m1) && Good(src, m2) && m1.start + MINMATCH <= m2.start
    requires m1.End() + MFLIMIT <= |src|
    ensures Good(src, Disjoin(m1, m2).0) && Good(src, Disjoin(m1, m2).1)
  {
    var (a, b) := Disjoin(m1, m2);
    ShorterIsGood(src, m1, a.len);
    LaterIsGood(src, m2, b.start - m2.start);
  }

  /** The second match, when the third one takes its place: what is left of it after the
      first, or the third match if too little is left. */
  function Remainder(m1: Match, m2: Match, m3: Match): (r: Match)
    ensures m1.End() <= m3.start ==> m1.End() <= r.start
    ensures m2.start <= m3.start && m1.End() <= m3.start ==> r.start <= m3.start
    ensures m2.len < m3.len ==> r.len <= m3.len && (r.start < m3.start ==> r.len < m3.len)
  {
    if m2.start < m1.End() then
      var correction := m1.End() - m2.start;
      if m2.len < correction + MINMATCH then m3 else Later(m2, correction)
    else m2
  }

  lemma RemainderIsGood(src: seq<Byte>, m1: Match, m2: Match, m3: Match)
    requires Good(src, m2) && Good(src, m3) && m1.End() <= m3.start
    ensures Good(src, Remainder(m1, m2, m3))
  {
    if m2.start < m1.End() && m1.End() - m2.start + MINMATCH <= m2.len {
      LaterIsGood(src, m2, m1.End() - m2.start);
    }
  }

  // ---------------------------------------------------------------- the parser's invariant

  /** The end of the furthest match considered: it never moves back. */
  function Furthest(st: State): nat
  {
    match st
    case AtMain(ip) => ip
    case AtSearch2(_, m1) => m1.End()
    case AtSearch3(_, m2) => m2.End()
  }

  function Rank(st: State): nat
  {
    if st.AtMain? then 0 else 1
  }

  /** At _Search2: the saved match begins at most two bytes earlier, and is shorter if it does. */
  ghost predicate Search2Ok(src: seq<Byte>, m0: Match, m1: Match, anchor: nat)
  {
    && Good(src, m0) && Good(src, m1)
    && anchor <= m0.start <= m1.start <= m0.start + 2 && m0.len <= m1.len
    && (m0.start < m1.start ==> m0.len < m1.len)
  }

  /** At _Search3: the matches are far enough apart, or the second long enough, for both to
      keep MINMATCH bytes; at most one byte lies between them, and then the second is longer. */
  ghost predicate Search3Ok(src: seq<Byte>, m1: Match, m2: Match, anchor: nat)
  {
    && Good(src, m1) && Good(src, m2)
    && anchor <= m1.start <= m2.start && 8 <= m2.start - m1.start + m2.len
    && m2.start <= m1.End() + 1 && (m2.start == m1.End() + 1 ==> MINMATCH < m2.len)
    && m1.End() + MFLIMIT < |src|
  }

  /** The invariant of the parser: the matches are usable and ascending, what has been
      written ends before them, and the tables are not ahead of the next search. */
  ghost predicate StateOk(src: seq<Byte>, st: State, anchor: nat, nextToUpdate: nat)
  {
    && anchor <= |src| && Furthest(st) <= |src| + 1
    && match st
       case AtMain(ip) => 1 <= ip && anchor <= ip && nextToUpdate <= ip
       case AtSearch2(m0, m1) => Search2Ok(src, m0, m1, anchor) && nextToUpdate + 2 <= m1.End()
       case AtSearch3(m1, m2) => Search3Ok(src, m1, m2, anchor) && nextToUpdate + 3 <= m2.End()
  }

  // ---------------------------------------------------------------- the steps

  /** Where the compressor is: what the parser considers, the tables and the first position
      not in them, the position up to which the source is written, and the sequences written. */
  datatype Node = Node(st: State, t: Tables, next: nat, anchor: nat, ss: seq<Sequence>)

  function StartNode(): Node
  {
    Node(AtMain(1), Tables(seq(HASHTABLESIZE, _ => 0), seq(MAXD, _ => 0xFFFF)), 1, 0, [])
  }

  /** The main loop ends twelve bytes before the end of the source. */
  predicate AtEnd(src: seq<Byte>, a: Node)
  {
    a.st.AtMain? && a.st.ip + 12 >= |src|
  }

  ghost predicate NodeOk(src: seq<Byte>, a: Node)
  {
    a.t.HaveSizes() && StateOk(src, a.st, a.anchor, a.next)
  }

  /** The node when a match, with the literals in front of it, has been written. */
  function Write(src: seq<Byte>, a: Node, m: Match): Node
    requires a.anchor <= m.start <= |src| && m.ref <= m.start
  {
    a.(anchor := m.End(), ss := a.ss + [Sequence(src[a.anchor..m.start], m.start - m.ref, m.len)])
  }

  /** The top of the main loop: no match, and the position is passed, or the longest. */
  function MainNext(src: seq<Byte>, address: nat, attempts: nat, a: Node): Node
    requires a.t.HaveSizes() && a.st.AtMain? && a.st.ip + MFLIMIT < |src|
  {
    var ip := a.st.ip;
    var t := Entered(src, address, a.t, a.next, ip);
    var best := Best(src, Visited(t.hash, t.chain, address, src, ip, attempts), ip, |src| - LASTLITERALS);
    var after := AfterBest(src, address, t, ip, |src| - LASTLITERALS);
    var m := Match(ip, best.1, best.0);
    a.(st := if best.0 == 0 then AtMain(ip + 1) else AtSearch2(m, m), t := after.0, next := after.1)
  }

  /** The search for a match wider than `m`, `back` bytes before its end. */
  function Wider(src: seq<Byte>, address: nat, attempts: nat, t: Tables, m: Match, back: nat, startLimit: nat): Option<Match>
    requires t.HaveSizes() && m.End() + MFLIMIT < |src| && startLimit + back <= m.End()
  {
    var ip := m.End() - back;
    var w := Widest(src, Candidates(t.chain, address, ip, t.hash[Hash(src, ip)], attempts), ip, startLimit, |src| - LASTLITERALS, m.len);
    if w.0 == m.len then None else Some(Match(w.2, w.1, w.0))
  }

  /** The tables at that search, which is made unless `m` ends too near to the end of the source. */
  function Searched(src: seq<Byte>, address: nat, a: Node, m: Match, back: nat): Node
    requires a.t.HaveSizes() && back <= m.End()
  {
    if m.End() + MFLIMIT < |src| then
      a.(t := Entered(src, address, a.t, a.next, m.End() - back), next := if a.next <= m.End() - back then m.End() - back else a.next)
    else a
  }

  function Found(src: seq<Byte>, address: nat, attempts: nat, a: Node, m: Match, back: nat, startLimit: nat): Option<Match>
    requires a.t.HaveSizes() && back <= m.End() && startLimit + back <= m.End()
  {
    if m.End() + MFLIMIT < |src| then Wider(src, address, attempts, Searched(src, address, a, m, back).t, m, back, startLimit) else None
  }

  /** _Search2, when the search is made: the first match is written if there is none wider;
      otherwise the saved one is taken up again if the wider match begins inside it, and the
      first is dropped if the wider begins within three bytes. */
  function Search2Choice(src: seq<Byte>, a: Node, m0: Match, m1: Match, wider: Option<Match>): Node
    requires a.anchor <= m1.start <= |src| && m1.ref <= m1.start
  {
    match wider
    case None => Write(src, a, m1).(st := AtMain(m1.End()))
    case Some(m2) =>
      var first := if m0.start < m1.start && m2.start < m1.start + m0.len then m0 else m1;
      a.(st := if m2.start < first.start + 3 then AtSearch2(m0, m2) else AtSearch3(first, m2))
  }

  /** _Search3 without a third match: both are written, the first up to the second. */
  function BothWritten(src: seq<Byte>, a: Node, m1: Match, m2: Match): Node
    requires a.anchor <= m1.start <= |src| && m1.ref <= m1.start && m1.start <= m2.start <= |src| && m2.ref <= m2.start
  {
    var first := if m2.start < m1.End() then Shorter(m1, m2.start - m1.start) else m1;
    Write(src, Write(src, a, first), m2).(st := AtMain(m2.End()))
  }

  /** _Search3 with a third match: a second match with less than three bytes of its own is
      dropped; otherwise the first is written, and the other two are the first and the second. */
  function Search3Choice(src: seq<Byte>, a: Node, m1: Match, m2: Match, m3: Match): Node
    requires a.anchor <= m1.start <= |src| && m1.ref <= m1.start
    requires MINMATCH <= m1.len && MINMATCH <= m2.len && m1.start + MINMATCH <= m2.start
  {
    if m3.start < m1.End() then a.(st := AtSearch3(m1, m3))
    else if m3.start < m1.End() + 3 then Write(src, a, m1).(st := AtSearch2(Remainder(m1, m2, m3), m3))
    else
      var cut := Disjoin(m1, m2);
      Write(src, a, cut.0).(st := AtSearch3(cut.1, m3))
  }

  lemma StateBounds(src: seq<Byte>, a: Node)
    requires NodeOk(src, a)
    ensures match a.st
            case AtMain(ip) => a.anchor <= ip && a.next <= ip
            case AtSearch2(m0, m1) =>
              && a.anchor <= m1.start <= |src| && m1.ref <= m1.start && m1.start + 4 <= m1.End() && a.next + 2 <= m1.End()
            case AtSearch3(m1, m2) =>
              && a.anchor <= m1.start <= |src| && m1.ref <= m1.start && 4 <= m1.len && 4 <= m2.len
              && m1.start <= m2.start && 8 <= m2.start - m1.start + m2.len && a.next + 3 <= m2.End()
              && m2.start <= |src| && m2.ref <= m2.start && m1.End() <= |src|
  {
  }

  ghost function NextNode(src: seq<Byte>, address: nat, attempts: nat, a: Node): Node
    requires NodeOk(src, a) && !AtEnd(src, a)
  {
    hide StateOk;
    StateBounds(src, a);
    match a.st
    case AtMain(ip) => MainNext(src, address, attempts, a)
    case AtSearch2(m0, m1) => Search2Next(src, address, attempts, a, m0, m1)
    case AtSearch3(m1, m2) => Search3Next(src, address, attempts, a, m1, m2)
  }

  function Search2Next(src: seq<Byte>, address: nat, attempts: nat, a: Node, m0: Match, m1: Match): Node
    requires a.t.HaveSizes() && a.anchor <= m1.start <= |src| && m1.ref <= m1.start && 4 <= m1.len
  {
    Search2Choice(src, Searched(src, address, a, m1, 2), m0, m1, Found(src, address, attempts, a, m1, 2, m1.start + 1))
  }

  function Search3Next(src: seq<Byte>, address: nat, attempts: nat, a: Node, m1: Match, m2: Match): Node
    requires a.t.HaveSizes() && a.anchor <= m1.start <= |src| && m1.ref <= m1.start && 4 <= m1.len && 4 <= m2.len
    requires m1.start <= m2.start <= |src| && 8 <= m2.start - m1.start + m2.len && m2.ref <= m2.start && m1.End() <= |src|
  {
    var second := Separate(m1, m2);
    var searched := Searched(src, address, a, second, 3);
    match Found(src, address, attempts, a, second, 3, second.start)
    case None => BothWritten(src, searched, m1, second)
    case Some(m3) => Search3Choice(src, searched, m1, second, m3)
  }

  // ---------------------------------------------------------------- runs

  /** One step, made unless the parser is at the end of its main loop. */
  ghost predicate Goes(src: seq<Byte>, address: nat, attempts: nat, a: Node, b: Node)
  {
    NodeOk(src, a) && !AtEnd(src, a) && b == NextNode(src, address, attempts, a)
  }

  ghost predicate IsRun(src: seq<Byte>, address: nat, attempts: nat, run: seq<Node>)
  {
    && run != [] && run[0] == StartNode()
    && forall i :: 0 < i < |run| ==> Goes(src, address, attempts, run[i - 1], run[i])
  }

  /** A block with the sequences that a run to the end of the main loop has written. */
  ghost predicate IsParsedBlock(bytes: seq<Byte>, src: seq<Byte>, address: nat, attempts: nat)
  {
    exists run: seq<Node> :: run != [] && IsRun(src, address, attempts, run) && IsResult(bytes, src, run[|run| - 1])
  }

  ghost predicate IsResult(bytes: seq<Byte>, src: seq<Byte>, last: Node)
  {
    AtEnd(src, last) && IsBlockWith(bytes, src, last.ss)
  }

  lemma RunStarts(src: seq<Byte>, address: nat, attempts: nat)
    ensures IsRun(src, address, attempts, [StartNode()])
  {
    hide StartNode;
  }

  lemma RunGoesOn(src: seq<Byte>, address: nat, attempts: nat, run: seq<Node>, b: Node)
    requires run != [] && IsRun(src, address, attempts, run)
    requires NodeOk(src, run[|run| - 1]) && !AtEnd(src, run[|run| - 1]) && b == NextNode(src, address, attempts, run[|run| - 1])
    ensures IsRun(src, address, attempts, run + [b])
  {
    hide StartNode, NextNode, NodeOk, AtEnd;
  }

  lemma RunEnds(bytes: seq<Byte>, src: seq<Byte>, address: nat, attempts: nat, run: seq<Node>)
    requires run != [] && IsRun(src, address, attempts, run) && AtEnd(src, run[|run| - 1]) && IsBlockWith(bytes, src, run[|run| - 1].ss)
    ensures IsParsedBlock(bytes, src, address, attempts)
  {
    hide IsRun, IsBlockWith, AtEnd;
    assert IsResult(bytes, src, run[|run| - 1]);
  }

  lemma MainIsNext(src: seq<Byte>, address: nat, attempts: nat, a: Node)
    requires NodeOk(src, a) && a.st.AtMain? && !AtEnd(src, a)
    ensures NextNode(src, address, attempts, a) == MainNext(src, address, attempts, a)
  {
    hide StateOk, MainNext;
  }
}
