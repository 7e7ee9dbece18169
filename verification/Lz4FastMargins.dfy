/** Which encoded blocks the unchecked decoder decodes: those without sequences, and those that
    close with 5 literals or more. */
module Lz4FastMargins {
  import opened Wrappers
  import opened Lz4Format
  import opened Lz4Copy
  import opened Lz4DecodeFast
  import opened Lz4Margins

  /** The block stands in memory, and a word behind it. */
  ghost predicate InMemory(mem: seq<Byte>, c: nat, ss: seq<Sequence>, literals: seq<Byte>)
  {
    c + 8 <= |mem| && AllEncodable(ss) && Expand(ss).Some? && mem[..c] == Encoded(ss, literals)
  }

  /** Over a sequence without room decoding ends with a rejection. */
  lemma RejectStep(mem: seq<Byte>, ip: nat, pos: nat, cap: nat, s: Sequence, q: nat, next: nat)
    requires ip <= |mem| && next <= |mem| && ReadFrom(mem, ip, s, q, next)
    requires q - |s.literals| + WildLength(|s.literals|) <= |mem| && s.offset <= pos + |s.literals| && pos + |s.literals| != cap
    requires pos + |s.literals| + 8 > cap || pos + |s.literals| + s.matchLength + 5 > cap
    ensures EndAt(mem, ip, pos, cap).Rejected?
  {
    hide ReadLength, WildLength;
  }

  /** Where the i-th sequence of the block is read, and what is known of it. */
  lemma {:induction false} SequenceAt(mem: seq<Byte>, c: nat, ss: seq<Sequence>, literals: seq<Byte>, i: nat, ip: nat, pos: nat, next: nat)
    requires InMemory(mem, c, ss, literals) && i < |ss| && AllEncodable(ss[..i]) && AllEncodable(ss[..i + 1]) && Expand(ss[..i]).Some?
    requires ip == |EncodeSequences(ss[..i])| && next == |EncodeSequences(ss[..i + 1])| && pos == |Expand(ss[..i]).value|
    ensures var s := ss[i];
            && Encodable(s) && |MatchBytes(s)| <= next <= c && ip < c && ReadFrom(mem, ip, s, next - |MatchBytes(s)|, next)
            && s.offset <= pos + |s.literals| && pos + |s.literals| + s.matchLength <= |Expand(ss).value|
            && Expand(ss[..i + 1]).Some? && |Expand(ss[..i + 1]).value| == pos + |s.literals| + s.matchLength
  {
    hide EncodeSequences, EncodeClosing, MatchBytes, ReadItem, ReadFrom, Expand, CopyMatch;
    ReadPart(ss, literals, i);
    ExpandTo(ss, i);
    PartsGrow(ss, i + 1, |ss|);
    assert ss[..|ss|] == ss;
    ItemIff(mem[..c], ip, ss[i], next - |MatchBytes(ss[i])|, next);
    ItemWithin(mem, ip, ss[i], next - |MatchBytes(ss[i])|, next, c);
  }

  lemma LiteralsBefore(mem: seq<Byte>, ip: nat, s: Sequence, q: nat, next: nat)
    requires ip <= |mem| && ReadFrom(mem, ip, s, q, next)
    ensures |s.literals| <= q && q + 2 <= next
  {
    hide ReadLength;
  }

  lemma {:induction false} DecodedFrom(mem: seq<Byte>, c: nat, ss: seq<Sequence>, literals: seq<Byte>, i: nat, ip: nat, pos: nat)
    requires InMemory(mem, c, ss, literals) && i <= |ss| && AllEncodable(ss[..i]) && Expand(ss[..i]).Some?
    requires ip == |EncodeSequences(ss[..i])| && pos == |Expand(ss[..i]).value| && ip <= |mem|
    ensures var end := EndAt(mem, ip, pos, |Expand(ss).value| + |literals|);
            if i == |ss| || 5 <= |literals| then end == Done(c) else end.Rejected?
    decreases |ss| - i
  {
    hide EncodeSequences, EncodeClosing, MatchBytes, ReadItem, ReadFrom, Expand, CopyMatch, EndAt, ReadLength, WildLength;
    var n := |Expand(ss).value| + |literals|;
    if i == |ss| {
      assert ss[..i] == ss;
      assert mem[..c][ip..] == EncodeClosing(literals);
      ReadEncodedClosing(mem[..c], ip, literals);
      ClosingRead(mem, c, ip, literals);
      ClosingEnds(mem, c, ip, pos, n, |literals|);
    } else {
      PartsGrow(ss, i, i + 1);
      var s, next := ss[i], |EncodeSequences(ss[..i + 1])|;
      SequenceAt(mem, c, ss, literals, i, ip, pos, next);
      var q := next - |MatchBytes(s)|;
      LiteralsBefore(mem, ip, s, q, next);
      assert i + 1 == |ss| ==> ss[..i + 1] == ss;
      DecodedFrom(mem, c, ss, literals, i + 1, next, pos + |s.literals| + s.matchLength);
      if pos + |s.literals| + 8 <= n && pos + |s.literals| + s.matchLength + 5 <= n {
        EndStep(mem, ip, pos, n, s, q, next);
      } else {
        RejectStep(mem, ip, pos, n, s, q, next);
      }
    }
  }

  lemma ClosingEnds(mem: seq<Byte>, c: nat, ip: nat, pos: nat, cap: nat, length: nat)
    requires ip < c <= |mem| && length <= c && ReadLength(mem, ip + 1, mem[ip] / 16) == Some((length, c - length)) && pos + length == cap
    ensures EndAt(mem, ip, pos, cap) == Done(c)
  {
    hide ReadLength;
  }

  /** In just the room for its data an encoded block, with anything behind it, is decoded if and only
      if it has no sequence or closes with 5 literals or more. */
  lemma {:induction false} FastDecodesIff(mem: seq<Byte>, c: nat, ss: seq<Sequence>, literals: seq<Byte>)
    requires InMemory(mem, c, ss, literals)
    ensures var end := FastEnd(mem, |Expand(ss).value| + |literals|);
            if ss == [] || 5 <= |literals| then end == Done(c) else end.Rejected?
  {
    hide EncodeSequences, EncodeClosing, EndAt, CopyMatch;
    assert ss[..0] == [];
    NothingWritten();
    DecodedFrom(mem, c, ss, literals, 0, 0, 0);
    if |Expand(ss).value| + |literals| == 0 {
      NoLiterals(mem, c);
    }
  }

  lemma NothingWritten()
    ensures EncodeSequences([]) == [] && Expand([]) == Some([])
  {
  }

  lemma NoLiterals(mem: seq<Byte>, c: nat)
    requires InMemory(mem, c, [], [])
    ensures c == 1 && mem[0] == 0
  {
    assert Encoded([], []) == [0];
    assert mem[..c][0] == 0;
  }
}
