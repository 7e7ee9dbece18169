/** Which encoded blocks the checked decoder accepts, in numbers: only the last match counts.
    It must begin 12 bytes or more before the end of the output buffer and end 5 or more before
    it, and 8 bytes of input must follow its literals, 4 a continued match length. */
module Lz4Margins {
  import opened Wrappers
  import opened Lz4Format

  /** The block of these sequences and closing literals, whatever its margins. */
  function Encoded(ss: seq<Sequence>, literals: seq<Byte>): seq<Byte>
    requires AllEncodable(ss)
  {
    EncodeSequences(ss) + EncodeClosing(literals)
  }

  /** What the block decodes to. */
  function DataOf(ss: seq<Sequence>, literals: seq<Byte>): seq<Byte>
    requires Expand(ss).Some?
  {
    Expand(ss).value + literals
  }

  /** There is room for the data, and the last sequence keeps its margins. */
  predicate Fits(ss: seq<Sequence>, literals: seq<Byte>, cap: nat)
    requires AllEncodable(ss) && Expand(ss).Some?
  {
    && |DataOf(ss, literals)| <= cap
    && (ss != [] ==> LastFits(ss[|ss| - 1], |Expand(ss).value|, |EncodeClosing(literals)|, cap))
  }

  /** The margins kept by the last sequence of a block that is decoded into `cap` bytes. */
  predicate LastFits(s: Sequence, end: nat, closing: nat, cap: nat)
    requires Encodable(s)
  {
    && end + 12 <= cap + s.matchLength && end + 5 <= cap
    && 8 <= |MatchBytes(s)| + closing && (19 <= s.matchLength ==> 4 <= closing)
  }

  lemma ClosingIs(literals: seq<Byte>)
    ensures |EncodeClosing(literals)| == 1 + |LengthBytes(|literals|)| + |literals|
  {
  }

  /** Every sequence is read back from its place in the block. */
  lemma {:induction false} ReadPart(ss: seq<Sequence>, literals: seq<Byte>, i: nat)
    requires AllEncodable(ss) && i < |ss|
    ensures AllEncodable(ss[..i]) && AllEncodable(ss[..i + 1])
    ensures var bytes, ip, next := Encoded(ss, literals), |EncodeSequences(ss[..i])|, |EncodeSequences(ss[..i + 1])|;
            && ip + |MatchBytes(ss[i])| < next < |bytes|
            && ReadItem(bytes, ip) == Next(ss[i], next - |MatchBytes(ss[i])|, next)
  {
    hide EncodeSequence, EncodeSequences, ReadItem, MatchBytes, EncodeClosing, AllEncodable;
    PartIs(ss, i);
    var before, e, bytes := EncodeSequences(ss[..i]), EncodeSequence(ss[i]), Encoded(ss, literals);
    ClosingIs(literals);
    SequenceIs(ss[i]);
    SplitFound(bytes, 0, before, e);
    ReadEncodedSequence(bytes, |before|, ss[i]);
  }

  /** The bytes up to a sequence, and the sequence itself, begin the encoding. */
  lemma {:induction false} PartIs(ss: seq<Sequence>, i: nat)
    requires AllEncodable(ss) && i < |ss|
    ensures AllEncodable(ss[..i]) && AllEncodable(ss[..i + 1]) && Encodable(ss[i])
    ensures var part := EncodeSequences(ss[..i]) + EncodeSequence(ss[i]);
            EncodeSequences(ss[..i + 1]) == part && |part| <= |EncodeSequences(ss)| && EncodeSequences(ss)[..|part|] == part
  {
    hide EncodeSequence;
    EncodePrefix(ss, i);
    EncodePrefix(ss, i + 1);
    assert ss[..i + 1][..i] == ss[..i] && ss[..i + 1][i] == ss[i];
  }

  lemma SequenceIs(s: Sequence)
    requires Encodable(s)
    ensures |EncodeSequence(s)| == 1 + |LengthBytes(|s.literals|)| + |s.literals| + |MatchBytes(s)|
  {
  }

  lemma {:induction false} ExpandTo(ss: seq<Sequence>, i: nat)
    requires i < |ss| && Expand(ss).Some?
    ensures Expand(ss[..i]).Some? && Expand(ss[..i + 1]).Some?
    ensures var out, s := Expand(ss[..i]).value, ss[i];
            && Encodable(s) && s.offset <= |out| + |s.literals|
            && Expand(ss[..i + 1]) == Some(CopyMatch(out + s.literals, s.offset, s.matchLength))
    decreases |ss|
  {
    hide CopyMatch;
    var front := ss[..|ss| - 1];
    if i < |front| {
      ExpandTo(front, i);
      assert front[..i] == ss[..i] && front[..i + 1] == ss[..i + 1];
    } else {
      assert ss[..i + 1] == ss && ss[..i] == front;
    }
  }

  /** What the decoding functions say from the i-th sequence on. */
  ghost predicate From(ss: seq<Sequence>, literals: seq<Byte>, i: nat, cap: nat)
    requires i <= |ss| && Expand(ss).Some? && AllEncodable(ss)
  {
    && AllEncodable(ss[..i]) && Expand(ss[..i]).Some?
    && var bytes, ip, out := Encoded(ss, literals), |EncodeSequences(ss[..i])|, Expand(ss[..i]).value;
       && ip <= |bytes| && |out| <= |Expand(ss).value| && NoZeroOffsets(bytes, ip)
       && RefDecode(bytes, ip, out) == Some(Expand(ss).value + literals)
       && StrictSize(bytes, ip, |out|, cap, 0) == Verdict(ss, literals, i, cap)
  }

  /** The number of bytes decoded, if the margins are kept. */
  ghost function Verdict(ss: seq<Sequence>, literals: seq<Byte>, i: nat, cap: nat): Option<nat>
    requires i <= |ss| && Expand(ss).Some? && AllEncodable(ss)
  {
    var n := |Expand(ss).value| + |literals|;
    if n <= cap && (i < |ss| ==> LastFits(ss[|ss| - 1], |Expand(ss).value|, |EncodeClosing(literals)|, cap)) then Some(n) else None
  }

  lemma ClosingFound(bytes: seq<Byte>, ip: nat, out: seq<Byte>, literals: seq<Byte>, cap: nat)
    requires ip <= |bytes| && ReadItem(bytes, ip) == Closing(literals)
    ensures NoZeroOffsets(bytes, ip) && RefDecode(bytes, ip, out) == Some(out + literals)
    ensures StrictSize(bytes, ip, |out|, cap, 0) == if |out| + |literals| <= cap then Some(|out| + |literals|) else None
  {
    hide ReadItem;
  }

  lemma FromEnd(ss: seq<Sequence>, literals: seq<Byte>, cap: nat)
    requires Expand(ss).Some? && AllEncodable(ss)
    ensures From(ss, literals, |ss|, cap)
  {
    hide EncodeClosing, EncodeSequences, Expand, ReadItem, RefDecode, StrictSize, NoZeroOffsets, AllEncodable;
    assert ss[..|ss|] == ss;
    var bytes, ip := Encoded(ss, literals), |EncodeSequences(ss)|;
    assert bytes[ip..] == EncodeClosing(literals);
    ReadEncodedClosing(bytes, ip, literals);
    ClosingFound(bytes, ip, Expand(ss).value, literals, cap);
  }

  lemma SequenceFound(bytes: seq<Byte>, ip: nat, out: seq<Byte>, s: Sequence, matchPos: nat, next: nat, cap: nat)
    requires ip <= |bytes| && ReadItem(bytes, ip) == Next(s, matchPos, next) && 1 <= s.offset <= |out| + |s.literals|
    ensures var after := CopyMatch(out + s.literals, s.offset, s.matchLength);
            && NoZeroOffsets(bytes, ip) == NoZeroOffsets(bytes, next) && RefDecode(bytes, ip, out) == RefDecode(bytes, next, after)
            && StrictSize(bytes, ip, |out|, cap, 0) ==
                 if EndRulesHold(s, |out| + |s.literals|, matchPos, next, |bytes|, cap) then StrictSize(bytes, next, |after|, cap, 0)
                 else None
  {
    hide ReadItem, EndRulesHold, CopyMatch;
  }

  /** Later parts lie behind. */
  lemma {:induction false} PartsGrow(ss: seq<Sequence>, i: nat, j: nat)
    requires i <= j <= |ss| && AllEncodable(ss) && Expand(ss).Some?
    ensures AllEncodable(ss[..i]) && AllEncodable(ss[..j]) && |EncodeSequences(ss[..i])| <= |EncodeSequences(ss[..j])|
    ensures Expand(ss[..i]).Some? && Expand(ss[..j]).Some? && |Expand(ss[..i]).value| <= |Expand(ss[..j]).value|
    decreases j - i
  {
    if i < j {
      hide CopyMatch, EncodeSequence;
      PartsGrow(ss, i + 1, j);
      ExpandTo(ss, i);
      assert ss[..i + 1][..i] == ss[..i];
    } else if i < |ss| {
      ExpandTo(ss, i);
    } else {
      assert ss[..i] == ss;
    }
  }

  /** The last sequence. */
  lemma {:induction false} LastRules(ss: seq<Sequence>, literals: seq<Byte>, cap: nat)
    requires ss != [] && AllEncodable(ss) && Expand(ss).Some?
    ensures var i, s := |ss| - 1, ss[|ss| - 1];
            && AllEncodable(ss[..i]) && Expand(ss[..i]).Some?
            && |Expand(ss).value| == |Expand(ss[..i]).value| + |s.literals| + s.matchLength
            && |EncodeSequences(ss[..i])| + 1 + |s.literals| + |MatchBytes(s)| <= |EncodeSequences(ss)|
            && (EndRulesHold(s, |Expand(ss[..i]).value| + |s.literals|, |EncodeSequences(ss)| - |MatchBytes(s)|,
                             |EncodeSequences(ss)|, |Encoded(ss, literals)|, cap)
                <==> LastFits(s, |Expand(ss).value|, |EncodeClosing(literals)|, cap))
  {
    hide CopyMatch, EncodeSequence, MatchBytes, EncodeClosing;
    SequenceIs(ss[|ss| - 1]);
  }

  /** If the last sequence keeps its margins, so do those before it. */
  lemma {:induction false} EarlierRules(ss: seq<Sequence>, literals: seq<Byte>, i: nat, cap: nat)
    requires AllEncodable(ss) && Expand(ss).Some? && i + 1 < |ss|
    requires LastFits(ss[|ss| - 1], |Expand(ss).value|, |EncodeClosing(literals)|, cap)
    ensures AllEncodable(ss[..i]) && Expand(ss[..i]).Some? && AllEncodable(ss[..i + 1])
    ensures var s, next := ss[i], |EncodeSequences(ss[..i + 1])|;
            |MatchBytes(s)| <= next && EndRulesHold(s, |Expand(ss[..i]).value| + |s.literals|, next - |MatchBytes(s)|, next, |Encoded(ss, literals)|, cap)
  {
    hide CopyMatch, EncodeSequence, MatchBytes, EncodeClosing, EncodeSequences, Expand;
    PartsGrow(ss, i, i);
    PartsGrow(ss, i + 1, |ss| - 1);
    ExpandTo(ss, i);
    ReadPart(ss, literals, i);
    LastRules(ss, literals, cap);
  }

  lemma {:induction false} FromStep(ss: seq<Sequence>, literals: seq<Byte>, i: nat, cap: nat)
    requires AllEncodable(ss) && Expand(ss).Some? && i < |ss| && From(ss, literals, i + 1, cap)
    ensures From(ss, literals, i, cap)
  {
    hide CopyMatch, EncodeClosing, EncodeSequences, Expand, MatchBytes, ReadItem, RefDecode, StrictSize, NoZeroOffsets, EndRulesHold, LastFits;
    ReadPart(ss, literals, i);
    ExpandTo(ss, i);
    PartsGrow(ss, i, |ss|);
    assert ss[..|ss|] == ss;
    var bytes, ip, next := Encoded(ss, literals), |EncodeSequences(ss[..i])|, |EncodeSequences(ss[..i + 1])|;
    SequenceFound(bytes, ip, Expand(ss[..i]).value, ss[i], next - |MatchBytes(ss[i])|, next, cap);
    if i == |ss| - 1 {
      LastRules(ss, literals, cap);
    } else if LastFits(ss[|ss| - 1], |Expand(ss).value|, |EncodeClosing(literals)|, cap) {
      EarlierRules(ss, literals, i, cap);
    }
  }

  lemma {:induction false} FromAll(ss: seq<Sequence>, literals: seq<Byte>, i: nat, cap: nat)
    requires AllEncodable(ss) && Expand(ss).Some? && i <= |ss|
    ensures From(ss, literals, i, cap)
    decreases |ss| - i
  {
    hide From;
    if i == |ss| {
      FromEnd(ss, literals, cap);
    } else {
      FromAll(ss, literals, i + 1, cap);
      FromStep(ss, literals, i, cap);
    }
  }

  /** An encoded block decodes to its data; in a buffer of `cap` bytes the checked decoder takes
      it if and only if there is room and the last sequence keeps its margins. */
  lemma {:induction false} AcceptedIff(ss: seq<Sequence>, literals: seq<Byte>, cap: nat)
    requires AllEncodable(ss) && Expand(ss).Some?
    ensures var bytes, data := Encoded(ss, literals), DataOf(ss, literals);
            && NoZeroOffsets(bytes, 0) && RefDecode(bytes, 0, []) == Some(data)
            && StrictSize(bytes, 0, 0, cap, 0) == if Fits(ss, literals, cap) then Some(|data|) else None
  {
    hide EncodeClosing, RefDecode, StrictSize, NoZeroOffsets, LastFits;
    FromAll(ss, literals, 0, cap);
    assert ss[..0] == [];
  }

  /** A block is that of the literals alone only if it has no sequences. */
  lemma {:induction false} LiteralsAloneIff(bytes: seq<Byte>, data: seq<Byte>, ss: seq<Sequence>)
    requires IsBlockWith(bytes, data, ss)
    ensures bytes == EncodeClosing(data) <==> ss == []
  {
    hide EncodeClosing, ReadItem, EndsInTime, Expand, EncodeSequence;
    var literals :| IsBlock(bytes, data, ss, literals);
    if ss == [] {
      assert Expand(ss) == Some([]) by { NothingExpands(); }
      assert [] + literals == literals && [] + EncodeClosing(literals) == EncodeClosing(literals);
    } else {
      ReadPart(ss, literals, 0);
      assert ss[..0] == [];
      assert EncodeClosing(data)[0..] == EncodeClosing(data);
      ReadEncodedClosing(EncodeClosing(data), 0, data);
    }
  }

  lemma NothingExpands()
    ensures Expand([]) == Some([])
  {
  }

  // ---------------------------------------------------------------- the margins of the format

  /** The restrictions that encoded blocks keep, in numbers. */
  lemma {:induction false} EndsInTimeIff(ss: seq<Sequence>, n: nat)
    requires Expand(ss).Some?
    ensures EndsInTime(ss, n) <==>
              (ss == [] || (|Expand(ss).value| + 12 <= n + ss[|ss| - 1].matchLength && |Expand(ss).value| + 5 <= n))
    decreases |ss|
  {
    hide CopyMatch;
    if ss != [] {
      var front := ss[..|ss| - 1];
      EndsInTimeIff(front, n);
      if front != [] {
        ExpandTo(front, |front| - 1);
        assert front[..|front|] == front;
      }
    }
  }

  /** Every match begins `k` bytes or more before the end of the data, and ends `l` or more before it. */
  ghost predicate KeepsMargins(ss: seq<Sequence>, n: nat, k: nat, l: nat)
  {
    forall i :: 0 <= i < |ss| ==> MarginsAt(ss, n, k, l, i)
  }

  predicate MarginsAt(ss: seq<Sequence>, n: nat, k: nat, l: nat, i: nat)
    requires i < |ss|
  {
    match Expand(ss[..i + 1])
    case None => false
    case Some(out) => |out| + k <= n + ss[i].matchLength && |out| + l <= n
  }

  /** All encoded blocks that keep such margins are accepted into just the room for their data. */
  ghost predicate AlwaysAccepted(k: nat, l: nat)
  {
    forall ss, literals :: AllEncodable(ss) && Expand(ss).Some? && KeepsMargins(ss, |Expand(ss).value| + |literals|, k, l) ==>
      StrictSize(Encoded(ss, literals), 0, 0, |Expand(ss).value| + |literals|, 0).Some?
  }

  /** One literal, a match of `m` bytes, and `c` literals: zeros throughout. */
  lemma {:induction false} OneMatch(m: nat, c: nat)
    requires m >= 4
    ensures var ss, literals := [Sequence([0], 1, m)], seq(c, _ => 0);
            && AllEncodable(ss) && Expand(ss).Some? && |Expand(ss).value| == 1 + m
            && KeepsMargins(ss, 1 + m + c, m + c, c)
            && (c < 5 || m + c < 12 ==> StrictSize(Encoded(ss, literals), 0, 0, 1 + m + c, 0) == None)
  {
    hide CopyMatch, StrictSize, EncodeClosing, RefDecode, NoZeroOffsets, MatchBytes;
    var ss, literals: seq<Byte> := [Sequence([0], 1, m)], seq(c, _ => 0);
    assert ss[..0] == [] && ss[..1] == ss;
    assert [] + [0] == [0];
    assert Expand(ss) == Some(CopyMatch([0], 1, m));
    AcceptedIff(ss, literals, 1 + m + c);
  }

  /** They are exactly if matches end 5 bytes or more before the end and begin 12 or more before
      it (as those do that end 8 or more before it). */
  lemma {:induction false} AlwaysAcceptedIff(k: nat, l: nat)
    ensures AlwaysAccepted(k, l) <==> 5 <= l && (12 <= k || 8 <= l)
  {
    hide StrictSize, EncodeClosing, EncodeSequences, MatchBytes, RefDecode, NoZeroOffsets, KeepsMargins;
    if 5 <= l && (12 <= k || 8 <= l) {
      forall ss: seq<Sequence>, literals: seq<Byte>
        | AllEncodable(ss) && Expand(ss).Some? && KeepsMargins(ss, |Expand(ss).value| + |literals|, k, l)
        ensures StrictSize(Encoded(ss, literals), 0, 0, |Expand(ss).value| + |literals|, 0).Some?
      {
        AcceptedIff(ss, literals, |Expand(ss).value| + |literals|);
        if ss != [] {
          LastMargins(ss, literals, k, l);
        }
      }
    } else if l < 5 {
      OneMatch(k + 12, 4);
      FewerMargins([Sequence([0], 1, k + 12)], 1 + k + 12 + 4, k + 16, 4, k, l);
      NotAlways([Sequence([0], 1, k + 12)], seq(4, _ => 0), k, l);
    } else {
      OneMatch(4, 7);
      FewerMargins([Sequence([0], 1, 4)], 12, 11, 7, k, l);
      NotAlways([Sequence([0], 1, 4)], seq(7, _ => 0), k, l);
    }
  }

  lemma NotAlways(ss: seq<Sequence>, literals: seq<Byte>, k: nat, l: nat)
    requires AllEncodable(ss) && Expand(ss).Some? && KeepsMargins(ss, |Expand(ss).value| + |literals|, k, l)
    requires StrictSize(Encoded(ss, literals), 0, 0, |Expand(ss).value| + |literals|, 0) == None
    ensures !AlwaysAccepted(k, l)
  {
    hide KeepsMargins, StrictSize, Encoded, Expand, AllEncodable;
  }

  lemma FewerMargins(ss: seq<Sequence>, n: nat, k: nat, l: nat, k': nat, l': nat)
    requires KeepsMargins(ss, n, k, l) && k' <= k && l' <= l
    ensures KeepsMargins(ss, n, k', l')
  {
    hide Expand;
    forall i: nat | i < |ss| ensures MarginsAt(ss, n, k', l', i) {
      assert MarginsAt(ss, n, k, l, i);
    }
  }

  lemma {:induction false} LastMargins(ss: seq<Sequence>, literals: seq<Byte>, k: nat, l: nat)
    requires ss != [] && AllEncodable(ss) && Expand(ss).Some? && 5 <= l && (12 <= k || 8 <= l)
    requires KeepsMargins(ss, |Expand(ss).value| + |literals|, k, l)
    ensures LastFits(ss[|ss| - 1], |Expand(ss).value|, |EncodeClosing(literals)|, |Expand(ss).value| + |literals|)
  {
    hide Expand, EncodeClosing;
    ClosingIs(literals);
    assert ss[..|ss|] == ss;
    var i := |ss| - 1;
    assert ss[..i + 1] == ss;
    assert MarginsAt(ss, |Expand(ss).value| + |literals|, k, l, i);
    assert |MatchBytes(ss[i])| >= 2;
  }
}
