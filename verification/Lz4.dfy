/** The entry points of the LZ4 codec, and what they promise about one another. */
module Lz4 {
  import opened Wrappers
  import opened Lz4Format
  import opened Lz4Emit
  import opened Lz4Decode
  import opened Lz4Margins
  import opened Lz4Size
  import opened Lz4Stop
  import Lz4DecodeFast
  import Lz4Fast
  import Lz4HcParser

  // ---------------------------------------------------------------- what the safe decoder accepts

  /** An encoded block is accepted in any buffer large enough for its data. */
  lemma {:induction false} BlockAccepted(bytes: seq<Byte>, data: seq<Byte>, cap: nat)
    requires IsBlockOf(bytes, data) && |data| <= cap
    ensures SafeSize(bytes, cap, 0) == Some(|data|) && NoZeroOffsets(bytes, 0) && RefDecode(bytes, 0, []) == Some(data)
  {
    BlockDecodes(bytes, data, cap);
    if cap == 0 {
      EmptyBlock(bytes, data);
    }
  }

  /** In a buffer of just the right size the unchecked decoder reads it to its end, whatever
      stands behind it in memory. */
  lemma {:induction false} BlockIsFast(mem: seq<Byte>, c: nat, data: seq<Byte>)
    requires c <= |mem| && IsBlockOf(mem[..c], data)
    ensures Lz4DecodeFast.FastEnd(mem, |data|) == Lz4DecodeFast.Done(c)
  {
    BlockDecodes(mem[..c], data, |data|);
    if data == [] {
      EmptyBlock(mem[..c], data);
      assert mem[0] == mem[..c][0];
    } else {
      Lz4DecodeFast.StrictIsFast(mem, c, 0, 0, |data|);
    }
  }

  /** An encoded block has something to read: the checked decoder never looks beyond it. */
  lemma {:induction false} BlockReadsInside(mem: seq<Byte>, c: nat, data: seq<Byte>)
    requires c <= |mem| && IsBlockOf(mem[..c], data)
    ensures !ReadsOutside(mem)
  {
    hide IsBlockOf;
    BlockDecodes(mem[..c], data, |data|);
    if ReadsOutside(mem) {
      NothingToRead(mem, c);
    }
  }

  lemma DecodedInside(mem: seq<Byte>, c: nat, data: seq<Byte>)
    requires c <= |mem| && RefDecode(mem[..c], 0, []) == Some(data)
    ensures !ReadsOutside(mem)
  {
    if ReadsOutside(mem) {
      NothingToRead(mem, c);
    }
  }

  /** The margins that decide about an encoded block decide it in a buffer of no bytes, too. */
  lemma {:induction false} EncodedSafe(ss: seq<Sequence>, literals: seq<Byte>, cap: nat)
    requires AllEncodable(ss) && Expand(ss).Some?
    ensures var bytes, data := Encoded(ss, literals), DataOf(ss, literals);
            && NoZeroOffsets(bytes, 0) && RefDecode(bytes, 0, []) == Some(data)
            && SafeSize(bytes, cap, 0) == if Fits(ss, literals, cap) then Some(|data|) else None
  {
    hide Encoded, RefDecode, NoZeroOffsets, StrictSize, LastFits, EncodeClosing;
    AcceptedIff(ss, literals, cap);
    if cap == 0 {
      EmptyOutput(Encoded(ss, literals), []);
      if DataOf(ss, literals) == [] {
        NothingEncoded(ss, literals);
      }
    }
  }

  lemma NothingEncoded(ss: seq<Sequence>, literals: seq<Byte>)
    requires AllEncodable(ss) && Expand(ss).Some? && DataOf(ss, literals) == []
    ensures ss == [] && Encoded(ss, literals) == [0]
  {
  }

  lemma NothingToRead(mem: seq<Byte>, c: nat)
    requires c <= |mem| && ReadsOutside(mem)
    ensures RefDecode(mem[..c], 0, []) == None
  {
    assert c == 1 ==> mem[..c][0] == mem[0];
    assert ReadItem(mem[..c], 0) == Malformed;
  }

  lemma EmptyBlock(bytes: seq<Byte>, data: seq<Byte>)
    requires IsBlockOf(bytes, data) && data == []
    ensures bytes == [0]
  {
    var ss, literals :| IsBlock(bytes, data, ss, literals);
    assert ss == [];
  }

  /** Among the blocks the safe decoder accepts, the reference decoder accepts exactly those
      without a zero offset. */
  lemma {:induction false} ReferenceAcceptsIff(src: seq<Byte>, ip: nat, out: seq<Byte>, pos: nat, cap: nat)
    requires ip <= |src| && pos <= |out| && StrictSize(src, ip, pos, cap, |out| - pos).Some?
    ensures RefDecode(src, ip, out).Some? <==> NoZeroOffsets(src, ip)
    decreases |src| - ip
  {
    hide ReadItem, EndRulesHold, CopyMatch;
    match ReadItem(src, ip)
    case Malformed =>
    case Closing(_) =>
    case Next(s, _, next) =>
      if s.offset != 0 {
        ReferenceAcceptsIff(src, next, CopyMatch(out + s.literals, s.offset, s.matchLength), pos + |s.literals| + s.matchLength, cap);
      }
  }

  /** One literal, a match of four bytes at distance zero, twelve literals: accepted by the
      safe decoder for its 17 bytes, but no block of the format. */
  const ZERO_OFFSET: seq<Byte> := [0x10, 65, 0, 0, 0xC0, 1, 2, 3, 4, 5, 6, 7, 8, 9, 10, 11, 12]

  lemma ZeroOffsetItems()
    ensures ReadItem(ZERO_OFFSET, 0) == Next(Sequence([65], 0, 4), 2, 4)
    ensures ReadItem(ZERO_OFFSET, 4) == Closing(ZERO_OFFSET[5..])
  {
    var z := ZERO_OFFSET;
    assert z[1..2] == [65];
    assert ReadLength(z, 1, 1) == Some((1, 1)) && ReadLength(z, 4, 0) == Some((0, 4)) && ReadLength(z, 5, 12) == Some((12, 5));
    hide ReadLength;
    assert ReadMatch(z, [65], 2, 0) == Next(Sequence([65], 0, 4), 2, 4);
  }

  lemma ZeroOffsetAccepted()
    ensures SafeSize(ZERO_OFFSET, 17, 0) == Some(17) && RefDecode(ZERO_OFFSET, 0, []) == None
  {
    hide ReadItem;
    ZeroOffsetItems();
    assert StrictSize(ZERO_OFFSET, 4, 5, 17, 0) == Some(17);
  }

  // ---------------------------------------------------------------- decompression

  /** LZ4_decompress_safe. `mem` is the memory at the source pointer, the first
      `compressedSize` bytes of it the input. It reads outside the memory (None) exactly if there
      is room in the output and the memory ends before the token, or after a token that asks for
      one more byte; where `mem` is just the input, this is when it reads outside its input.
      Otherwise the answer is that of the strict size; without zero offsets the bytes are those
      of the reference decoder. */
  method DecompressSafe(mem: seq<Byte>, compressedSize: nat, dest: array<Byte>) returns (r: Option<int>)
    requires compressedSize <= |mem|
    modifies dest
    ensures r == None <==> dest.Length > 0 && (|mem| == 0 || (|mem| == 1 && mem[0] >= 0xF0))
    ensures match SafeStop(mem, compressedSize, dest.Length, 0)
            case Outside => r == None
            case Rejected(at) => r == Some(-1 - at)
            case Decoded(size) => r == Some(size)
    ensures r.Some? ==> (r.value >= 0 <==> SafeSize(mem[..compressedSize], dest.Length, 0).Some?)
    ensures r.Some? && r.value >= 0 ==> r.value <= dest.Length && SafeSize(mem[..compressedSize], dest.Length, 0) == Some(r.value)
    ensures r.Some? && r.value >= 0 && NoZeroOffsets(mem[..compressedSize], 0) ==>
              RefDecode(mem[..compressedSize], 0, []) == Some(dest[..r.value])
    ensures forall data :: IsBlockOf(mem[..compressedSize], data) && |data| <= dest.Length ==>
              r == Some(|data|) && dest[..|data|] == data
    ensures forall ss, literals :: AllEncodable(ss) && Expand(ss).Some? && mem[..compressedSize] == Encoded(ss, literals) ==>
              r.Some? && var data := DataOf(ss, literals);
                         if Fits(ss, literals, dest.Length) then r.value == |data| && dest[..|data|] == data else r.value < 0
  {
    hide Encoded, Expand, AllEncodable, Fits, DataOf, RefDecode, SafeSize, NoZeroOffsets, IsBlockOf, SafeStop;
    ghost var src := mem[..compressedSize];
    r := DecompressGeneric(mem, compressedSize, dest, []);
    assert r.Some? && r.value >= 0 ==> r.value <= dest.Length && [] + dest[..r.value] == dest[..r.value];
    forall ss, literals | AllEncodable(ss) && Expand(ss).Some? && src == Encoded(ss, literals)
      ensures r.Some? && var data := DataOf(ss, literals);
                         if Fits(ss, literals, dest.Length) then r.value == |data| && dest[..|data|] == data else r.value < 0
    {
      EncodedSafe(ss, literals, dest.Length);
      DecodedInside(mem, compressedSize, DataOf(ss, literals));
    }
    forall data | IsBlockOf(src, data) && |data| <= dest.Length ensures r == Some(|data|) && dest[..|data|] == data {
      BlockAccepted(src, data, dest.Length);
      BlockReadsInside(mem, compressedSize, data);
    }
  }

  /** The two kinds of input that it reads beyond, contrary to its documentation: an empty one,
      and a single byte that announces a long literal run. */
  method ReadsBeyondInput(size: nat) returns (empty: Option<int>, single: Option<int>)
    ensures size > 0 ==> empty == None && single == None
    ensures size == 0 ==> empty.Some? && empty.value < 0 && single.Some? && single.value < 0
  {
    var nothing: seq<Byte>, one: seq<Byte> := [], [0xF0];
    var out := new Byte[size](_ => 0);
    empty := DecompressSafe(nothing, 0, out);
    single := DecompressSafe(one, 1, out);
  }

  /** LZ4_decompress_fast, which is not told where its input ends: it reads outside the memory
      or before the output, rejects, or answers how many bytes it read, as specified; without
      zero offsets the output is that of the reference decoder. A block for just this output,
      with anything behind it, is decoded. The answers are ints: the count is right for every
      output of up to MAX_FITTING bytes. */
  method DecompressFast(mem: seq<Byte>, dest: array<Byte>) returns (r: Option<int>)
    modifies dest
    ensures match Lz4DecodeFast.FastEnd(mem, dest.Length)
            case Outside => r == None
            case Rejected(at) => r == Lz4DecodeFast.ErrorAnswer(at)
            case Done(c) => r == Some(AsInt(c)) && (NoZeroOffsets(mem[..c], 0) ==> RefDecode(mem[..c], 0, []) == Some(dest[..]))
    ensures dest.Length <= MAX_FITTING && Lz4DecodeFast.FastEnd(mem, dest.Length).Done? ==>
              r == Some(Lz4DecodeFast.FastEnd(mem, dest.Length).read)
    ensures forall c: nat, data :: c <= |mem| && IsBlockOf(mem[..c], data) && |data| == dest.Length ==>
              r == Some(AsInt(c)) && dest[..] == data
  {
    hide IsBlockOf, RefDecode, NoZeroOffsets, AsInt, Lz4DecodeFast.FastEnd, Lz4DecodeFast.ErrorAnswer;
    r := Lz4DecodeFast.DecompressGeneric(mem, dest);
    if Lz4DecodeFast.FastEnd(mem, dest.Length).Done? {
      Lz4DecodeFast.FastReadsAtMost(mem, dest.Length);
    }
    forall c: nat, data | c <= |mem| && IsBlockOf(mem[..c], data) && |data| == dest.Length
      ensures r == Some(AsInt(c)) && dest[..] == data
    {
      BlockIsFast(mem, c, data);
      BlockDecodes(mem[..c], data, |data|);
    }
  }

  /** LZ4_decompress_safe_usingDict: decodes as the reference does with the dictionary
      standing immediately before the output. */
  method DecompressSafeUsingDict(mem: seq<Byte>, compressedSize: nat, dest: array<Byte>, dict: seq<Byte>) returns (r: Option<int>)
    requires compressedSize <= |mem|
    modifies dest
    ensures r == None <==> dest.Length > 0 && (|mem| == 0 || (|mem| == 1 && mem[0] >= 0xF0))
    ensures match SafeStop(mem, compressedSize, dest.Length, |dict|)
            case Outside => r == None
            case Rejected(at) => r == Some(-1 - at)
            case Decoded(size) => r == Some(size)
    ensures r.Some? ==> (r.value >= 0 <==> SafeSize(mem[..compressedSize], dest.Length, |dict|).Some?)
    ensures r.Some? && r.value >= 0 ==> r.value <= dest.Length && SafeSize(mem[..compressedSize], dest.Length, |dict|) == Some(r.value)
    ensures r.Some? && r.value >= 0 && NoZeroOffsets(mem[..compressedSize], 0) ==>
              RefDecode(mem[..compressedSize], 0, dict) == Some(dict + dest[..r.value])
  {
    r := DecompressGeneric(mem, compressedSize, dest, dict);
  }

  /** As an int the size of a block comes out negative exactly beyond MAX_INT, so it does for
      any block of more than MAX_FITTING bytes without repeats. */
  lemma {:induction false} SizeOverflows(bytes: seq<Byte>, data: seq<Byte>)
    requires IsBlockOf(bytes, data) && |data| <= MAX_INT
    ensures if |bytes| <= MAX_INT then AsInt(|bytes|) == |bytes| else AsInt(|bytes|) < 0
    ensures |data| > MAX_FITTING && NoRepeats(data) ==> AsInt(|bytes|) < 0
  {
    hide IsBlockOf, NoRepeats, LiteralSize, AsInt;
    BlockSize(bytes, data);
    LiteralSizeFitsIff(|data|);
    if NoRepeats(data) {
      LargestBlock(bytes, data);
    }
  }

  // ---------------------------------------------------------------- round trips

  /** Both decoders on a compressed block: nothing is read beyond it. */
  method DecompressBoth(compressed: seq<Byte>, capacity: nat, ghost src: seq<Byte>, size: nat)
    returns (safe: seq<Byte>, fast: seq<Byte>, read: int)
    requires IsBlockOf(compressed, src) && size == |src| <= capacity && |compressed| <= MAX_INT
    ensures safe == src && fast == src && read == |compressed|
  {
    hide IsBlockOf, SafeSize, RefDecode, NoZeroOffsets, AsInt, Lz4DecodeFast.FastEnd, Lz4DecodeFast.ErrorAnswer;
    assert compressed[..|compressed|] == compressed;
    var out := new Byte[capacity](_ => 0);
    var r := DecompressSafe(compressed, |compressed|, out);
    safe := out[..r.value];
    var exact := new Byte[size](_ => 0);
    r := DecompressFast(compressed, exact);
    fast, read := exact[..], r.value;
  }

  /** LZ4_compress, then LZ4_decompress_safe into a buffer of any sufficient size, and
      LZ4_decompress_fast: the source comes back. */
  method FastRoundTrip(src: seq<Byte>, capacity: nat) returns (safe: seq<Byte>, fast: seq<Byte>, compressed: seq<Byte>, read: int)
    requires |src| <= 0x7E00_0000 && |src| <= capacity
    ensures safe == src && fast == src
    ensures 0 < |compressed| <= CompressBound(|src|) <= MAX_INT && read == |compressed|
  {
    var buffer := new Byte[CompressBound(|src|)](_ => 0);
    var size := Lz4Fast.Compress(src, buffer);
    compressed := buffer[..size];
    safe, fast, read := DecompressBoth(compressed, capacity, src, |src|);
  }

  /** LZ4_compressHC2 at any level and, if it answers a size, LZ4_decompress_safe into a buffer
      of any sufficient size, and LZ4_decompress_fast: the source comes back. A size is answered
      if and only if it fits an int: for every source of up to MAX_FITTING bytes, and for no
      longer one without repeats. */
  method HcRoundTrip(src: seq<Byte>, address: nat, level: int, shifted: nat, capacity: nat)
    returns (size: int, safe: seq<Byte>, fast: seq<Byte>, read: int, ghost compressed: seq<Byte>)
    requires |src| <= MAX_INT && |src| <= capacity
    ensures IsBlockOf(compressed, src) && 0 < |compressed| <= CompressBound(|src|)
    ensures if |compressed| <= MAX_INT then size == |compressed| else size < 0
    ensures size > 0 ==> safe == src && fast == src && read == size
    ensures |src| <= MAX_FITTING ==> size > 0
    ensures |src| > MAX_FITTING && NoRepeats(src) ==> size < 0
  {
    hide IsBlockOf, NoRepeats;
    var buffer := new Byte[CompressBound(|src|)](_ => 0);
    ghost var written;
    size, written := Lz4HcParser.CompressHC(src, address, buffer, level, shifted);
    compressed := buffer[..written];
    if size <= 0 {
      return size, [], [], 0, compressed;
    }
    var block := buffer[..size];
    safe, fast, read := DecompressBoth(block, capacity, src, |src|);
  }
}
