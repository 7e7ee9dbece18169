/** Where the checked decoder stops: how far its two length loops read, and at which input
    position it rejects what it cannot accept. */
module Lz4Stop {
  import opened Wrappers
  import opened Lz4Format

  /** How checked decoding ends: outside the memory at the source, with a rejection after so many
      bytes of input, or with so many bytes of output. */
  datatype SafeEnd = Outside | Rejected(at: nat) | Decoded(size: nat)

  /** The loop for a literal length: to the first byte other than 255, but no further than 15
      bytes before the end of the input. None where there is no byte to read. */
  function LiteralRun(mem: seq<Byte>, ip: nat, iend: nat, sum: nat): (r: Option<(nat, nat)>)
    ensures r.Some? ==> ip < r.value.1 <= |mem|
    decreases |mem| - ip
  {
    if ip >= |mem| then None
    else if mem[ip] == 255 && ip + 16 < iend then LiteralRun(mem, ip + 1, iend, sum + 255)
    else Some((sum + mem[ip], ip + 1))
  }

  /** The loop for a match length, which refuses (false) to read the last four bytes of the input. */
  function MatchRun(mem: seq<Byte>, ip: nat, iend: nat, sum: nat): (r: (bool, nat, nat))
    requires ip <= iend <= |mem|
    ensures ip <= r.2 <= iend
    decreases |mem| - ip
  {
    if ip + 5 > iend then (false, sum, ip)
    else if mem[ip] == 255 then MatchRun(mem, ip + 1, iend, sum + 255)
    else (true, sum + mem[ip], ip + 1)
  }

  function LiteralLength(mem: seq<Byte>, ip: nat, iend: nat, nibble: nat): (r: Option<(nat, nat)>)
    ensures r.Some? ==> ip <= r.value.1
  {
    if nibble == 15 then LiteralRun(mem, ip, iend, 15) else Some((nibble, ip))
  }

  function MatchLength(mem: seq<Byte>, ip: nat, iend: nat, nibble: nat): (r: (bool, nat, nat))
    requires ip <= iend <= |mem|
    ensures ip <= r.2 <= iend
  {
    if nibble == 15 then MatchRun(mem, ip, iend, 15) else (true, nibble, ip)
  }

  /** The end of decoding from `ip` on, `pos` bytes being written, with `history` bytes of
      dictionary in front of the output. */
  function StopFrom(mem: seq<Byte>, iend: nat, cap: nat, history: nat, ip: nat, pos: nat): SafeEnd
    requires iend <= |mem|
    decreases |mem| - ip
  {
    if ip >= |mem| then Outside
    else match LiteralLength(mem, ip + 1, iend, mem[ip] / 16)
      case None => Outside
      case Some((length, p)) =>
        if pos + length + 12 > cap || p + length + 8 > iend then
          if p + length == iend && pos + length <= cap then Decoded(pos + length) else Rejected(p)
        else StopAtMatch(mem, iend, cap, history, p + length, mem[ip] % 16, pos + length)
  }

  /** The end of decoding from an offset on. */
  function StopAtMatch(mem: seq<Byte>, iend: nat, cap: nat, history: nat, q: nat, nibble: nat, pos: nat): SafeEnd
    requires q + 8 <= iend <= |mem|
    decreases |mem| - q
  {
    if history < 65536 && mem[q] as int + 256 * mem[q + 1] as int > pos + history then Rejected(q + 2)
    else
      var run := MatchLength(mem, q + 2, iend, nibble);
      if !run.0 || pos + run.1 + 9 > cap then Rejected(run.2) else StopFrom(mem, iend, cap, history, run.2, pos + run.1 + 4)
  }

  /** An output of no bytes is decided at once. */
  function SafeStop(mem: seq<Byte>, iend: nat, cap: nat, history: nat): SafeEnd
    requires iend <= |mem|
  {
    if cap == 0 then (if iend == 1 && mem[0] == 0 then Decoded(0) else Rejected(0))
    else StopFrom(mem, iend, cap, history, 0, 0)
  }

  /** Each of the places of a rejection, and the read outside: a literal run too long, an offset
      too large, a match length in the last four bytes, a match too near the end of the output. */
  lemma StopExamples()
    ensures SafeStop([0x40, 1, 2], 3, 100, 0) == Rejected(1)
    ensures SafeStop([0x10, 65, 2, 0, 0x50, 1, 2, 3, 4, 5], 10, 100, 0) == Rejected(4)
    ensures SafeStop([0x1F, 65, 1, 0, 255, 255, 255, 255, 255, 255], 10, 100, 0) == Rejected(6)
    ensures SafeStop([0x1F, 65, 1, 0, 0, 0x50, 1, 2, 3, 4, 5], 11, 20, 0) == Rejected(5)
    ensures SafeStop([0x10, 65, 1, 0, 0x50, 1, 2, 3, 4, 5], 10, 13, 0) == Decoded(10)
    ensures SafeStop([0xF0], 1, 100, 0) == Outside && SafeStop([], 0, 100, 0) == Outside && SafeStop([5], 1, 0, 0) == Rejected(0)
  {
    var c := [0x1F, 65, 1, 0, 255, 255, 255, 255, 255, 255];
    assert MatchRun(c, 6, 10, 525) == (false, 525, 6);
    assert MatchRun(c, 5, 10, 270) == (false, 525, 6);
    assert MatchRun(c, 4, 10, 15) == (false, 525, 6);
    var d := [0x10, 65, 1, 0, 0x50, 1, 2, 3, 4, 5];
    assert StopFrom(d, 10, 13, 0, 4, 5) == Decoded(10);
  }

  /** Of seventeen bytes of 255 the loop for a literal length reads two: the third is 15 bytes before
      the end of the input. */
  lemma LiteralRunStops()
    ensures SafeStop([0xF0] + seq(17, _ => 255), 18, 1000, 0) == Rejected(3)
  {
    var mem: seq<Byte> := [0xF0] + seq(17, _ => 255);
    assert LiteralRun(mem, 2, 18, 270) == Some((525, 3));
    assert LiteralRun(mem, 1, 18, 15) == Some((525, 3));
  }
}
