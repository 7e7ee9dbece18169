/** LZ4_compress: the greedy hash-table compressor, without dictionary and without output
    limit, on a 64-bit machine (16-bit positions for inputs below LZ4_64KLIMIT, 32-bit
    positions otherwise). */
module Lz4Fast {
  import opened Wrappers
  import opened Lz4Format
  import opened Lz4Count
  import opened Lz4Emit
  import opened Lz4Greedy
  import opened Lz4Size

  /** The table of positions: one cell per hash, cells of 16 or of 32 bits. */
  class PositionTable {
    const byU16: bool
    const cells: array<nat>

    ghost predicate Valid()
      reads this
    {
      cells.Length == TableSize(byU16)
    }

    /** Every stored position is before `limit`. */
    ghost predicate Before(limit: nat)
      reads this, cells
    {
      IsTable(cells[..], byU16, limit)
    }

    constructor (byU16: bool)
      ensures Valid() && fresh(cells) && this.byU16 == byU16
      ensures cells[..] == seq(TableSize(byU16), _ => 0)
    {
      this.byU16 := byU16;
      this.cells := new nat[TableSize(byU16)](_ => 0);
    }

    /** The number of positions a cell can tell apart. */
    function Width(): nat
      reads this
    {
      if byU16 then 0x1_0000 else 0x1_0000_0000
    }

    /** LZ4_putPositionOnHash: the position is truncated to the cell. */
    method PutOnHash(p: nat, h: nat)
      requires Valid() && h < cells.Length
      modifies cells
      ensures cells[..] == old(cells[..])[h := p % Width()]
    {
      cells[h] := p % Width();
    }

    method GetOnHash(h: nat) returns (ref: nat)
      requires Valid() && h < cells.Length
      ensures ref == cells[h] == cells[..][h]
    {
      ref := cells[h];
    }

    /** LZ4_putPosition. */
    method PutPosition(src: seq<Byte>, p: nat)
      requires Valid() && TableFits(|src|, byU16) && p + MFLIMIT <= |src|
      modifies cells
      ensures cells[..] == Put(src, old(cells[..]), byU16, p)
    {
      hide HashPosition;
      PositionFits(p, |src|, Width());
      PutOnHash(p, HashPosition(src, p, byU16));
    }
  }

  /** A position that leaves MFLIMIT bytes fits its cell: nothing is truncated. */
  lemma PositionFits(p: nat, n: nat, width: nat)
    requires p + MFLIMIT <= n <= LZ4_MAX_INPUT_SIZE
    requires width == 0x1_0000_0000 || (width == 0x1_0000 && n < LZ4_64KLIMIT)
    ensures p % width == p
  {
  }

  /** Which table a compression of `n` bytes may use. */
  predicate TableFits(n: nat, byU16: bool)
  {
    n <= LZ4_MAX_INPUT_SIZE && (byU16 ==> n < LZ4_64KLIMIT)
  }

  /** The search loop: steps forward, faster and faster, until the position stored under the
      current hash starts with the same four bytes (and, with 32-bit cells, is near enough). */
  method FindMatch(src: seq<Byte>, table: PositionTable, ip0: nat, forwardH0: nat) returns (found: bool, ip: nat, ref: nat)
    requires table.Valid() && table.Before(ip0) && TableFits(|src|, table.byU16)
    requires ip0 + 4 <= |src| && forwardH0 == HashPosition(src, ip0, table.byU16) && MFLIMIT <= |src|
    modifies table.cells
    ensures (if found then Some((ip, ref)) else None, table.cells[..]) == Search(src, old(table.cells[..]), table.byU16, ip0, 1, 64)
  {
    hide HashPosition, Usable;
    var mflimit := |src| - MFLIMIT;
    var forwardH, forwardIp, step, searchMatchNb := forwardH0, ip0, 1, 64;
    ghost var all := Search(src, table.cells[..], table.byU16, ip0, 1, 64);
    while true
      invariant ip0 <= forwardIp && forwardIp + 4 <= |src| && 1 <= step && 64 <= searchMatchNb
      invariant forwardH == HashPosition(src, forwardIp, table.byU16)
      invariant table.Before(forwardIp)
      invariant Search(src, table.cells[..], table.byU16, forwardIp, step, searchMatchNb) == all
      decreases |src| - forwardIp
    {
      var h := forwardH;
      ip := forwardIp;
      forwardIp := forwardIp + step;
      step, searchMatchNb := searchMatchNb / 64, searchMatchNb + 1;
      if forwardIp > mflimit {
        return false, ip, 0;
      }
      ref := table.GetOnHash(h);
      forwardH := HashPosition(src, forwardIp, table.byU16);
      PositionFits(ip, |src|, table.Width());
      PutKeeps(src, table.cells[..], table.byU16, ip, ip, forwardIp);
      table.PutOnHash(ip, h);
      var usable := TestPosition(src, ref, ip, table.byU16);
      if usable {
        return true, ip, ref;
      }
    }
  }

  /** The condition of the search loop: the distance is tested only with 32-bit cells. */
  method TestPosition(src: seq<Byte>, ref: nat, ip: nat, byU16: bool) returns (usable: bool)
    requires ref < ip && ip + 4 <= |src|
    ensures usable <==> Usable(src, ref, ip, byU16)
  {
    usable := !(if byU16 then false else ref + MAX_DISTANCE < ip) && Read32(src, ref) == Read32(src, ip);
  }

  /** The catch-up loop: the match grows backwards over equal bytes, down to `anchor`. */
  method CatchUp(src: seq<Byte>, anchor: nat, ip0: nat, ref0: nat) returns (ip: nat, ref: nat)
    requires anchor <= ip0 <= |src| && ref0 < ip0
    ensures var back := CommonBack(src, ip0, ref0, anchor); ip == ip0 - back && ref == ref0 - back
  {
    hide IsMatch;
    ip, ref := ip0, ref0;
    while ip > anchor && ref > 0 && src[ip - 1] == src[ref - 1]
      invariant anchor <= ip <= ip0 && ip - ref == ip0 - ref0
      invariant CommonBack(src, ip0, ref0, anchor) == ip0 - ip + CommonBack(src, ip, ref, anchor)
    {
      ip, ref := ip - 1, ref - 1;
    }
  }

  /** After a match the next position is looked up at once: LZ4_putPosition of ip - 2, then
      the lookup and the update at ip. */
  method TestNextPosition(src: seq<Byte>, table: PositionTable, ip: nat) returns (again: bool, ref: nat)
    requires table.Valid() && table.Before(ip) && TableFits(|src|, table.byU16)
    requires 2 <= ip && ip + MFLIMIT <= |src|
    modifies table.cells
    ensures table.cells[..] == NextTable(src, old(table.cells[..]), table.byU16, ip)
    ensures ref == NextRef(src, old(table.cells[..]), table.byU16, ip)
    ensures again <==> Usable(src, ref, ip, false)
  {
    hide HashPosition, Read32;
    PutKeeps(src, table.cells[..], table.byU16, ip - 2, ip, ip);
    table.PutPosition(src, ip - 2);
    ref := table.GetOnHash(HashPosition(src, ip, table.byU16));
    table.PutPosition(src, ip);
    again := ref + MAX_DISTANCE >= ip && Read32(src, ref) == Read32(src, ip);
  }

  /** The match length: four bytes, and as many more as are the same before `matchlimit`. */
  method MatchLength(src: seq<Byte>, ref: nat, ip: nat, matchlimit: nat) returns (len: nat)
    requires ref < ip && ip + MINMATCH <= matchlimit == |src| - LASTLITERALS
    ensures len == MatchLen(src, ref, ip)
  {
    hide CommonLength;
    var more := Count(src, ip + MINMATCH, ref + MINMATCH, matchlimit);
    len := MINMATCH + more;
  }

  /** A match found may be written in its whole length. */
  lemma MayBeWritten(src: seq<Byte>, ref: nat, ip: nat)
    requires ref < ip && ip + MFLIMIT <= |src| && ip - ref <= MAX_DISTANCE && Read32(src, ref) == Read32(src, ip)
    ensures IsUsable(src, ref, ip, MatchLen(src, ref, ip))
  {
    hide SameBytes, Read32;
    FourMatch(src, ref, ip);
    JoinMatches(src, ref, ip, 4, CommonLength(src, ip + 4, ref + 4, |src| - 5));
  }

  /** The matches that follow one another without literals (the _next_match cycle), the first
      of them already begun at `token`. Stops past mflimit (`done`), or where no match starts. */
  method EmitMatches(src: seq<Byte>, table: PositionTable, dest: array<Byte>, ghost anchor0: nat,
                     token0: nat, op0: nat, ip0: nat, ref0: nat, ghost ss0: seq<Sequence>)
    returns (done: bool, ip: nat, op: nat, ghost ss: seq<Sequence>)
    requires table.Valid() && TableFits(|src|, table.byU16) && CompressBound(|src|) <= dest.Length
    requires ref0 < ip0 && ip0 + MFLIMIT <= |src| && table.Before(ip0 + MatchLen(src, ref0, ip0))
    requires ip0 - ref0 <= MAX_DISTANCE && Read32(src, ref0) == Read32(src, ip0)
    requires anchor0 <= ip0 && op0 <= dest.Length && Started(ss0, dest[..op0], token0, src, anchor0, ip0)
    modifies dest, table.cells
    ensures op <= dest.Length && Written(ss, dest[..op], src, ip) && op0 + 2 <= op && CleanFrom(dest, op)
    ensures ip0 + MatchLen(src, ref0, ip0) <= ip && ip + LASTLITERALS <= |src| && (!done ==> ip + MFLIMIT <= |src| && table.Before(ip + 1))
    ensures ss0 + ParseMatch(src, old(table.cells[..]), table.byU16, anchor0, ip0, ref0) ==
              ss + if done then [] else ParseFrom(src, table.cells[..], table.byU16, ip, ip + 1)
  {
    hide Written, Started, MatchLen, IsTable, Read32, ParseMatch, ParseFrom, ParseBehind, NextRef, NextTable;
    var matchlimit := |src| - LASTLITERALS;
    var token: nat, ref: nat;
    ip, op, token, ref, ss := ip0, op0, token0, ref0, ss0;
    ghost var anchor: nat, all := anchor0, ss0 + ParseMatch(src, table.cells[..], table.byU16, anchor0, ip0, ref0);
    while true
      invariant ref < ip && ip + MFLIMIT <= |src| && table.Before(ip + MatchLen(src, ref, ip))
      invariant (ip == ip0 && ref == ref0) || ip0 + MatchLen(src, ref0, ip0) <= ip
      invariant op0 <= op <= dest.Length && Started(ss, dest[..op], token, src, anchor, ip)
      invariant ip - ref <= MAX_DISTANCE && Read32(src, ref) == Read32(src, ip)
      invariant anchor <= ip && ss + ParseMatch(src, table.cells[..], table.byU16, anchor, ip, ref) == all
      invariant CleanFrom(dest, op)
      decreases |src| - ip
    {
      MayBeWritten(src, ref, ip);
      ParseMatchIs(src, table.cells[..], table.byU16, anchor, ip, ref, ss);
      var matchLength := MatchLength(src, ref, ip, matchlimit);
      op, ss := FinishSequence(src, anchor, ref, ip, matchLength, dest, token, op, ss);
      ip := ip + matchLength;
      anchor := ip;
      ParseBehindIs(src, table.cells[..], table.byU16, ip);
      if ip + MFLIMIT > |src| {
        return true, ip, op, ss;
      }
      var again;
      again, ref := TestNextPosition(src, table, ip);
      if !again {
        return false, ip, op, ss;
      }
      token := op;
      op := StartEmptySequence(src, ip, dest, token, ss);
      TableUpTo(table.cells[..], table.byU16, ip + 1, ip + MatchLen(src, ref, ip));
    }
  }

  /** LZ4_compress_generic. Zero for an input that is too large for the table; otherwise the
      size of the block of the parse, nothing being written at or past that size. */
  method CompressGeneric(src: seq<Byte>, dest: array<Byte>, byU16: bool) returns (r: nat)
    requires |src| <= LZ4_MAX_INPUT_SIZE ==> CompressBound(|src|) <= dest.Length
    modifies dest
    ensures r == 0 <==> !TableFits(|src|, byU16)
    ensures r != 0 ==> r <= CompressBound(|src|) && r <= dest.Length && IsBlockOf(dest[..r], src)
    ensures r != 0 ==> IsBlockWith(dest[..r], src, Parse(src, byU16))
    ensures CleanFrom(dest, r)
  {
    hide Written, Started, IsBlockWith, IsBlockOf, ParseFrom;
    var n := |src|;
    if n > LZ4_MAX_INPUT_SIZE || (byU16 && n >= LZ4_64KLIMIT) {
      return 0;
    }
    var table := new PositionTable(byU16);
    var anchor: nat, op: nat := 0, 0;
    ghost var ss: seq<Sequence> := [];
    WrittenNothing(src);
    assert dest[..0] == [] && src[..0] == [];
    if n >= MIN_LENGTH {
      table.PutPosition(src, 0);
      anchor, op, ss := CompressLoop(src, table, dest);
    }
    r := PutClosing(src, anchor, dest, op, ss);
  }

  /** The main loop, for inputs of MIN_LENGTH bytes or more, with position 0 in the table. */
  method CompressLoop(src: seq<Byte>, table: PositionTable, dest: array<Byte>)
    returns (anchor: nat, op: nat, ghost ss: seq<Sequence>)
    requires table.Valid() && TableFits(|src|, table.byU16)
    requires MIN_LENGTH <= |src| && CompressBound(|src|) <= dest.Length
    requires table.cells[..] == FirstTable(src, table.byU16)
    modifies dest, table.cells
    ensures op <= dest.Length && Written(ss, dest[..op], src, anchor) && ss == Parse(src, table.byU16)
    ensures anchor + LASTLITERALS <= |src| && CleanFrom(dest, op + 1 + LASTLITERALS)
  {
    hide Written, Started, ParseFrom, IsTable;
    anchor, op, ss := 0, 0, [];
    WrittenNothing(src);
    assert dest[..0] == [];
    var ip, more := 1, true;
    while more
      invariant more ==> anchor <= ip && ip + 4 <= |src| && table.Before(ip)
      invariant op <= dest.Length && Written(ss, dest[..op], src, anchor)
      invariant anchor + LASTLITERALS <= |src| && CleanFrom(dest, op + 1 + LASTLITERALS)
      invariant Parse(src, table.byU16) == ss + if more then ParseFrom(src, table.cells[..], table.byU16, anchor, ip) else []
      decreases more, |src| - ip
    {
      more, ip, anchor, op, ss := CompressStep(src, table, dest, ip, anchor, op, ss);
    }
  }

  /** One turn of the main loop: searches from `ip0`, and writes the match found, with the
      literals before it, and the matches that follow it directly. */
  method CompressStep(src: seq<Byte>, table: PositionTable, dest: array<Byte>, ip0: nat, anchor0: nat, op0: nat, ghost ss0: seq<Sequence>)
    returns (more: bool, ip: nat, anchor: nat, op: nat, ghost ss: seq<Sequence>)
    requires table.Valid() && table.Before(ip0) && TableFits(|src|, table.byU16)
    requires anchor0 <= ip0 && ip0 + 4 <= |src| && MFLIMIT <= |src| && CompressBound(|src|) <= dest.Length
    requires op0 <= dest.Length && Written(ss0, dest[..op0], src, anchor0) && anchor0 + LASTLITERALS <= |src|
    modifies dest, table.cells
    ensures op0 <= op <= dest.Length && Written(ss, dest[..op], src, anchor) && anchor + LASTLITERALS <= |src|
    ensures more ==> ip0 < ip && anchor <= ip && ip + 4 <= |src| && table.Before(ip)
    ensures CleanFrom(dest, op + 1 + LASTLITERALS)
    ensures ss0 + ParseFrom(src, old(table.cells[..]), table.byU16, anchor0, ip0) ==
              ss + if more then ParseFrom(src, table.cells[..], table.byU16, anchor, ip) else []
  {
    hide Written, Started, Search, ParseMatch, ParseFound, IsTable, MatchLen, Read32;
    anchor, op, ss := anchor0, op0, ss0;
    var found, ref;
    found, ip, ref := FindMatch(src, table, ip0, HashPosition(src, ip0, table.byU16));
    if !found {
      more := false;
      return;
    }
    ghost var at, stored := ip, ref;
    ip, ref := CatchUp(src, anchor, ip, ref);
    ParseFoundIs(src, table.cells[..], table.byU16, anchor, at, stored, ip, ref);
    op := StartSequence(src, anchor, ip, dest, op0, ss);
    var done;
    done, ip, op, ss := EmitMatches(src, table, dest, anchor, op0, op, ip, ref, ss);
    anchor := ip;
    more := !done;
    if more {
      ip := ip + 1;
    }
  }

  /** LZ4_compress: 16-bit cells for small inputs. */
  method Compress(src: seq<Byte>, dest: array<Byte>) returns (r: nat)
    requires |src| <= LZ4_MAX_INPUT_SIZE ==> CompressBound(|src|) <= dest.Length
    modifies dest
    ensures r == 0 <==> |src| > 0x7E00_0000
    ensures r != 0 ==> r <= |src| + |src| / 255 + 16 && r <= dest.Length && IsBlockOf(dest[..r], src)
    ensures r != 0 ==> IsBlockWith(dest[..r], src, Parse(src, |src| < 65547))
    ensures r != 0 && 14 <= |src| && AllEqual(src) ==> r == if |src| < 25 then 10 else 11 + (|src| - 25) / 255
    ensures CleanFrom(dest, r)
  {
    hide IsBlockWith, IsBlockOf, Parse;
    r := CompressGeneric(src, dest, |src| < LZ4_64KLIMIT);
    if r != 0 && 14 <= |src| && AllEqual(src) {
      ParseOfEqual(src, |src| < 65547);
      SizeOfEqual(dest[..r], src);
    }
  }
}
