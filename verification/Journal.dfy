/** The compressed record of the stack journal: integers in groups of seven bits, low group
    first, with the high bit of a byte set when another group follows. */
module Journal {
  import opened Wrappers
  import opened Words

  // ---------------------------------------------------------------- format

  function UIntBytes(v: nat): (r: seq<Byte>)
    ensures |r| >= 1
  {
    if v < 128 then [v] else [v % 128 + 128] + UIntBytes(v / 128)
  }

  /** The low seven bits of `v`, sign extended. */
  function Small(v: int): int
  {
    if v % 128 < 64 then v % 128 else v % 128 - 128
  }

  /** Signed integers end with the group that sign extends to the rest of the number. */
  function SIntBytes(v: int): (r: seq<Byte>)
    ensures |r| >= 1
    decreases if v < 0 then -v else v
  {
    if Small(v) == v then [v % 128] else [v % 128 + 128] + SIntBytes(v / 128)
  }

  lemma {:induction false} UIntSize(v: nat, n: nat)
    requires n >= 1 && v < Pow2(7 * n)
    ensures |UIntBytes(v)| <= n
    decreases n
  {
    TwoToThe();
    if v >= 128 {
      Pow2Add(7 * (n - 1), 7);
      UIntSize(v / 128, n - 1);
    }
  }

  lemma {:induction false} SIntSize(v: int, n: nat)
    requires n >= 1 && 0 - Pow2(7 * n - 1) <= v < Pow2(7 * n - 1)
    ensures |SIntBytes(v)| <= n
    decreases n
  {
    if Small(v) != v {
      TwoToThe();
      assert Pow2(7) == 2 * Pow2(6);
      hide Pow2;
      SmallRange(v);
      hide Small;
      if n > 1 {
        Pow2Add(7 * (n - 1) - 1, 7);
        DivBounds(v, Pow2(7 * (n - 1) - 1));
        SIntSize(v / 128, n - 1);
      }
    }
  }

  lemma SmallRange(v: int)
    ensures Small(v) == v <==> -64 <= v < 64
  {
  }

  lemma DivBounds(v: int, h: int)
    requires 0 - 128 * h <= v < 128 * h
    ensures 0 - h <= v / 128 < h
  {
  }

  // ---------------------------------------------------------------- groups

  lemma NextPower(k: nat)
    ensures Pow2(7 * (k + 1)) == 128 * Pow2(7 * k)
  {
    TwoToThe();
    Pow2Add(7 * k, 7);
  }

  lemma NextGroup(group: nat, dec: nat, k: nat)
    requires group < 128 && dec < Pow2(7 * k)
    ensures dec + group * Pow2(7 * k) < Pow2(7 * (k + 1)) == 128 * Pow2(7 * k)
  {
    NextPower(k);
    hide Pow2;
    MulAtMost(group, 127, Pow2(7 * k));
  }

  /** Up to its ninth group nothing of an integer is shifted out; of the tenth, one bit stays. */
  lemma GroupShifted(group: nat, k: nat)
    requires group < 128 && k <= 9
    ensures k <= 8 ==> ShiftLeft(group, 7 * k) == group * Pow2(7 * k)
    ensures k == 9 ==> ShiftLeft(group, 7 * k) == group % 2 * TWO_TO_63
  {
    TwoToThe();
    if k <= 8 {
      NextGroup(group, 0, k);
      Pow2Monotone(7 * (k + 1), 63);
      hide Pow2;
      MulAtMost(0, group, Pow2(7 * k));
    } else {
      TopBit(group);
    }
  }

  lemma TopBit(group: nat)
    ensures group * TWO_TO_63 % TWO_TO_64 == group % 2 * TWO_TO_63
  {
  }

  /** Puts group `k` in front of the `k` groups in `dec`, which have no bits in common with it. */
  function WithGroup(dec: nat, group: nat, k: nat): (r: UInt)
    requires dec < Pow2(7 * k) && group < 128 && k <= 9
    ensures r < Pow2(7 * (k + 1))
  {
    GroupBounds(dec, group, k);
    dec + ShiftLeft(group, 7 * k)
  }

  lemma GroupBounds(dec: nat, group: nat, k: nat)
    requires dec < Pow2(7 * k) && group < 128 && k <= 9
    ensures dec + ShiftLeft(group, 7 * k) < TWO_TO_64 && dec + ShiftLeft(group, 7 * k) < Pow2(7 * (k + 1))
  {
    hide ShiftLeft;
    GroupShifted(group, k);
    TwoToThe();
    if k <= 8 {
      NextGroup(group, dec, k);
      Pow2Monotone(7 * (k + 1), 63);
    } else {
      Pow2Monotone(64, 70);
    }
  }

  // ---------------------------------------------------------------- reading

  /** Group `k` of an unsigned integer and those after it. A shift for an eleventh is not
      defined, and neither is reading past the end. */
  function ReadUInt(data: seq<Byte>, at: nat, k: nat, dec: nat): (r: Option<Read<UInt>>)
    requires dec < Pow2(7 * k)
    decreases |data| - at
  {
    if at >= |data| || k >= 10 then None
    else
      var more := WithGroup(dec, data[at] % 128, k);
      if data[at] < 128 then Some(Read(more, at + 1)) else ReadUInt(data, at + 1, k + 1, more)
  }

  /** The low `bits` bits in `dec`, sign extended by shifting up and down again. */
  function SignExtend(dec: UInt, bits: nat): SInt
    requires 1 <= bits <= 63
  {
    ShiftRight(ToSigned(ShiftLeft(dec, 64 - bits)), 64 - bits)
  }

  lemma SignExtendMeans(dec: UInt, bits: nat)
    requires 1 <= bits <= 63 && dec < Pow2(bits)
    ensures SignExtend(dec, bits) == if dec < Pow2(bits - 1) then dec else dec - Pow2(bits)
  {
    TwoToThe();
    Pow2Add(bits, 64 - bits);
    Pow2Add(bits - 1, 64 - bits);
    Shifted(dec, Pow2(bits - 1), Pow2(64 - bits));
  }

  lemma Shifted(dec: nat, half: nat, h: nat)
    requires dec < 2 * half && half * h == TWO_TO_63 && h >= 1
    ensures 0 <= dec * h < TWO_TO_64
    ensures ToSigned(dec * h % TWO_TO_64) / h == if dec < half then dec else dec - 2 * half
  {
    MulSwap(2, half, h);
    MulLess(dec, 2 * half, h);
    if dec < half {
      MulLess(dec, half, h);
      Quotient(dec, h);
    } else {
      MulAtMost(half, dec, h);
      MulSplit(dec - 2 * half, 2 * half, h);
      Quotient(dec - 2 * half, h);
    }
  }

  /** As `ReadUInt`; with a tenth group there is no room left for the sign extension, whose
      shift is then not defined. */
  function ReadSInt(data: seq<Byte>, at: nat, k: nat, dec: nat): (r: Option<Read<SInt>>)
    requires dec < Pow2(7 * k)
    decreases |data| - at
  {
    if at >= |data| || k >= 9 then None
    else
      var more := WithGroup(dec, data[at] % 128, k);
      if data[at] < 128 then Some(Read(SignExtend(more, 7 * (k + 1)), at + 1)) else ReadSInt(data, at + 1, k + 1, more)
  }

  // ---------------------------------------------------------------- round trips

  ghost predicate HasAt(data: seq<Byte>, at: nat, bytes: seq<Byte>)
  {
    at + |bytes| <= |data| && data[at..at + |bytes|] == bytes
  }

  lemma HasBoth(data: seq<Byte>, at: nat, a: seq<Byte>, b: seq<Byte>)
    requires HasAt(data, at, a + b)
    ensures HasAt(data, at, a) && HasAt(data, at + |a|, b)
  {
    assert data[at..at + |a|] == (a + b)[..|a|] == a;
    assert data[at + |a|..at + |a| + |b|] == (a + b)[|a|..] == b;
  }

  /** `v` standing at group `k`. */
  function AtGroup(v: int, k: nat): (r: int)
  {
    v * Pow2(7 * k)
  }

  /** Every 64-bit unsigned integer is read back, with exactly the bytes written; `dec` are
      the `k` groups before. */
  lemma {:induction false} UIntRoundTrip(data: seq<Byte>, at: nat, k: nat, dec: nat, v: nat)
    requires HasAt(data, at, UIntBytes(v)) && AtGroup(v, k) < TWO_TO_64 && (k == 0 || v > 0) && dec < Pow2(7 * k)
    ensures ReadUInt(data, at, k, dec) == Some(Read(dec + AtGroup(v, k), at + |UIntBytes(v)|))
    decreases v
  {
    hide Pow2, WithGroup, AtGroup, HasAt;
    HeadAt(data, at, UIntBytes(v));
    GroupInWord(v, k, dec);
    GroupSplit(v, k);
    if v >= 128 {
      HasBoth(data, at, [v % 128 + 128], UIntBytes(v / 128));
      UIntRoundTrip(data, at + 1, k + 1, WithGroup(dec, v % 128, k), v / 128);
    }
  }

  lemma HeadAt(data: seq<Byte>, at: nat, bytes: seq<Byte>)
    requires HasAt(data, at, bytes) && bytes != []
    ensures at < |data| && data[at] == bytes[0]
  {
    assert data[at..at + |bytes|][0] == data[at];
  }

  lemma GroupInWord(v: nat, k: nat, dec: nat)
    requires AtGroup(v, k) < TWO_TO_64 && (k == 0 || v > 0) && dec < Pow2(7 * k)
    ensures k < 10 && WithGroup(dec, v % 128, k) == dec + AtGroup(v % 128, k)
    ensures AtGroup(v / 128, k + 1) < TWO_TO_64
  {
    if k >= 10 {
      TwoToThe();
      Pow2Monotone(64, 7 * k);
      MulAtMost(1, v, Pow2(7 * k));
    }
    hide Pow2;
    MulAtMost(v % 128, v, Pow2(7 * k));
    MulAtMost(0, v % 128, Pow2(7 * k));
    GroupSplit(v, k);
  }

  lemma GroupSplit(v: int, k: nat)
    ensures AtGroup(v, k) == AtGroup(v % 128, k) + AtGroup(v / 128, k + 1)
    ensures v / 128 == 0 ==> AtGroup(v, k) == AtGroup(v % 128, k)
  {
    NextPower(k);
    hide Pow2;
    var p := Pow2(7 * k);
    MulSplit(v % 128, v / 128 * 128, p);
    MulSwap(v / 128, 128, p);
  }

  const SINT_LIMIT: int := 0x4000_0000_0000_0000

  ghost predicate InDomain(v: int)
  {
    -SINT_LIMIT <= v < SINT_LIMIT
  }

  /** A signed integer, its first `k` groups taken into `dec` already, is read back, with
      exactly the bytes written, when all of it is in -2^62 .. 2^62 - 1; otherwise the shift for
      its sign is not defined. */
  lemma {:induction false} SIntRoundTrip(data: seq<Byte>, at: nat, k: nat, dec: nat, v: int)
    requires HasAt(data, at, SIntBytes(v)) && dec < Pow2(7 * k) && k <= 9
    requires k == 9 ==> !InDomain(dec + AtGroup(v, k))
    ensures var all := dec + AtGroup(v, k);
            ReadSInt(data, at, k, dec) == if InDomain(all) then Some(Read(all, at + |SIntBytes(v)|)) else None
    decreases 9 - k
  {
    hide Pow2, InDomain, SignExtend, WithGroup, AtGroup, HasAt;
    if k < 9 {
      HeadAt(data, at, SIntBytes(v));
      GroupAdded(dec, v % 128, k);
      if Small(v) == v {
        LastGroup(v, dec, k);
      } else {
        HasBoth(data, at, [v % 128 + 128], SIntBytes(v / 128));
        GroupSplit(v, k);
        if k == 8 {
          TooLarge(v, dec);
        }
        SIntRoundTrip(data, at + 1, k + 1, WithGroup(dec, v % 128, k), v / 128);
      }
    }
  }

  lemma GroupAdded(dec: nat, group: nat, k: nat)
    requires dec < Pow2(7 * k) && group < 128 && k <= 8
    ensures WithGroup(dec, group, k) == dec + AtGroup(group, k)
  {
    hide Pow2, ShiftLeft;
    GroupShifted(group, k);
  }

  lemma GroupBound(k: nat)
    requires k <= 8
    ensures 64 * Pow2(7 * k) <= SINT_LIMIT && (k == 8 ==> 64 * Pow2(7 * k) == SINT_LIMIT)
  {
    TwoToThe();
    Pow2Monotone(7 * k, 56);
    Pow2Add(56, 6);
    assert Pow2(7) == 2 * Pow2(6);
  }

  lemma TooLarge(v: int, dec: nat)
    requires Small(v) != v && dec < Pow2(7 * 8)
    ensures !InDomain(dec + AtGroup(v, 8))
  {
    GroupBound(8);
    if v >= 64 {
      MulAtMost(64, v, Pow2(56));
    } else {
      assert v <= -65;
      MulAtMost(v, -65, Pow2(56));
    }
  }

  lemma LastGroup(v: int, dec: nat, k: nat)
    requires Small(v) == v && k <= 8 && dec < Pow2(7 * k)
    ensures InDomain(dec + AtGroup(v, k))
    ensures SignExtend(WithGroup(dec, v % 128, k), 7 * (k + 1)) == dec + AtGroup(v, k)
  {
    hide SignExtend;
    var p := Pow2(7 * k);
    NextGroup(v % 128, dec, k);
    GroupAdded(dec, v % 128, k);
    GroupBound(k);
    SignExtendMeans(WithGroup(dec, v % 128, k), 7 * (k + 1));
    assert Pow2(7 * (k + 1)) == 2 * Pow2(7 * (k + 1) - 1);
    hide Pow2, WithGroup;
    assert -64 <= v <= 63;
    MulAtMost(-64, v, p);
    MulAtMost(v, 63, p);
    if v >= 0 {
      MulAtMost(0, v, p);
    } else {
      MulSplit(v, 128, p);
      MulAtMost(64, v + 128, p);
    }
  }

  // ---------------------------------------------------------------- the record

  const HANDLE_SIZE: nat := 8

  type Handle = h: seq<Byte> | |h| == HANDLE_SIZE witness [0, 0, 0, 0, 0, 0, 0, 0]
  datatype Flags = Flags(isPointer: bool, isVarying: bool, isConstant: bool, isNotNull: bool,
                         isParameter: bool, isFromLocal: bool, isTraceable: bool)

  datatype Record = Record(vType: Handle, name: Handle, offset: SInt, startInstruction: UInt, endInstruction: UInt,
                           notNullInstruction: UInt, pointerSource: SInt, pointerSourceType: UInt, flags: Flags)

  function Bit(b: bool, value: nat): nat
  {
    if b then value else 0
  }

  function FlagBits(f: Flags): (bits: UInt)
    ensures bits < 128
  {
    Bit(f.isPointer, 1) + Bit(f.isVarying, 2) + Bit(f.isConstant, 4) + Bit(f.isNotNull, 8)
    + Bit(f.isParameter, 16) + Bit(f.isFromLocal, 32) + Bit(f.isTraceable, 64)
  }

  predicate HasBit(bits: nat, i: nat)
  {
    if i == 0 then bits % 2 == 1 else HasBit(bits / 2, i - 1)
  }

  function FlagsOf(bits: nat): Flags
  {
    Flags(HasBit(bits, 0), HasBit(bits, 1), HasBit(bits, 2), HasBit(bits, 3), HasBit(bits, 4), HasBit(bits, 5), HasBit(bits, 6))
  }

  /** A number with lowest bit `b`. */
  function Above(b: bool, rest: nat): nat
  {
    2 * rest + if b then 1 else 0
  }

  lemma BitsOfAbove(b: bool, rest: nat)
    ensures var bits := Above(b, rest);
            && HasBit(bits, 0) == b && HasBit(bits, 1) == HasBit(rest, 0) && HasBit(bits, 2) == HasBit(rest, 1)
            && HasBit(bits, 3) == HasBit(rest, 2) && HasBit(bits, 4) == HasBit(rest, 3)
            && HasBit(bits, 5) == HasBit(rest, 4) && HasBit(bits, 6) == HasBit(rest, 5)
  {
    assert Above(b, rest) / 2 == rest;
    hide Above;
    forall i: nat | i < 6 ensures HasBit(Above(b, rest), i + 1) == HasBit(rest, i) {
    }
  }

  lemma FlagBitsAbove(f: Flags)
    ensures FlagBits(f) == Above(f.isPointer, Above(f.isVarying, Above(f.isConstant, Above(f.isNotNull,
                             Above(f.isParameter, Above(f.isFromLocal, Above(f.isTraceable, 0)))))))
  {
  }

  lemma FlagsRoundTrip(f: Flags)
    ensures FlagsOf(FlagBits(f)) == f
  {
    FlagBitsAbove(f);
    hide FlagBits, HasBit, Above;
    var r6 := Above(f.isTraceable, 0);
    var r5 := Above(f.isFromLocal, r6);
    var r4 := Above(f.isParameter, r5);
    var r3 := Above(f.isNotNull, r4);
    var r2 := Above(f.isConstant, r3);
    var r1 := Above(f.isVarying, r2);
    BitsOfAbove(f.isTraceable, 0);
    BitsOfAbove(f.isFromLocal, r6);
    BitsOfAbove(f.isParameter, r5);
    BitsOfAbove(f.isNotNull, r4);
    BitsOfAbove(f.isConstant, r3);
    BitsOfAbove(f.isVarying, r2);
    BitsOfAbove(f.isPointer, r1);
  }

  function PlaceBytes(r: Record): seq<Byte>
  {
    r.vType + r.name + SIntBytes(r.offset)
  }

  function SpanBytes(r: Record): seq<Byte>
  {
    UIntBytes(r.startInstruction) + UIntBytes(r.endInstruction) + UIntBytes(r.notNullInstruction)
  }

  function OriginBytes(r: Record): seq<Byte>
  {
    SIntBytes(r.pointerSource) + UIntBytes(r.pointerSourceType) + UIntBytes(FlagBits(r.flags))
  }

  function RecordBytes(r: Record): seq<Byte>
  {
    PlaceBytes(r) + SpanBytes(r) + OriginBytes(r)
  }

  /** A record, in bytes. */
  lemma RecordExample(vType: Handle, name: Handle)
    ensures UIntBytes(127) == [127] && UIntBytes(300) == [0xAC, 2] && UIntBytes(128) == [0x80, 1]
    ensures SIntBytes(-1) == [0x7F] && SIntBytes(63) == [0x3F] && SIntBytes(64) == [0xC0, 0] && SIntBytes(-65) == [0xBF, 0x7F]
    ensures FlagBits(Flags(true, false, true, false, false, false, true)) == 0x45
    ensures FlagBits(Flags(false, true, false, true, true, true, false)) == 0x3A
    ensures RecordBytes(Record(vType, name, -1, 300, 128, 0, 64, 5, Flags(true, false, true, false, false, false, true))) ==
              vType + name + [0x7F] + [0xAC, 2, 0x80, 1, 0] + [0xC0, 0, 5, 0x45]
  {
    assert UIntBytes(2) == [2] && UIntBytes(1) == [1] && SIntBytes(0) == [0] && SIntBytes(-1) == [0x7F];
  }

  function ReadHandle(data: seq<Byte>, at: nat): (r: Option<Read<Handle>>)
  {
    if at + HANDLE_SIZE > |data| then None else Some(Read(data[at..at + HANDLE_SIZE], at + HANDLE_SIZE))
  }

  function ReadPlace(data: seq<Byte>, at: nat): (r: Option<Read<(Handle, Handle, SInt)>>)
  {
    var vType :- ReadHandle(data, at);
    var name :- ReadHandle(data, vType.next);
    var offset :- ReadSInt(data, name.next, 0, 0);
    Some(Read((vType.value, name.value, offset.value), offset.next))
  }

  function ReadSpan(data: seq<Byte>, at: nat): (r: Option<Read<(UInt, UInt, UInt)>>)
  {
    var startInstruction :- ReadUInt(data, at, 0, 0);
    var endInstruction :- ReadUInt(data, startInstruction.next, 0, 0);
    var notNullInstruction :- ReadUInt(data, endInstruction.next, 0, 0);
    Some(Read((startInstruction.value, endInstruction.value, notNullInstruction.value), notNullInstruction.next))
  }

  function ReadOrigin(data: seq<Byte>, at: nat): (r: Option<Read<(SInt, UInt, Flags)>>)
  {
    var pointerSource :- ReadSInt(data, at, 0, 0);
    var pointerSourceType :- ReadUInt(data, pointerSource.next, 0, 0);
    var flags :- ReadUInt(data, pointerSourceType.next, 0, 0);
    Some(Read((pointerSource.value, pointerSourceType.value, FlagsOf(flags.value)), flags.next))
  }

  function ReadRecord(data: seq<Byte>, at: nat): (r: Option<Read<Record>>)
  {
    var place :- ReadPlace(data, at);
    var span :- ReadSpan(data, place.next);
    var origin :- ReadOrigin(data, span.next);
    Some(Read(Record(place.value.0, place.value.1, place.value.2, span.value.0, span.value.1, span.value.2,
                     origin.value.0, origin.value.1, origin.value.2), origin.next))
  }

  lemma UIntComesBack(data: seq<Byte>, at: nat, v: UInt)
    requires HasAt(data, at, UIntBytes(v))
    ensures ReadUInt(data, at, 0, 0) == Some(Read(v, at + |UIntBytes(v)|))
  {
    assert AtGroup(v, 0) == v;
    UIntRoundTrip(data, at, 0, 0, v);
  }

  lemma SIntComesBack(data: seq<Byte>, at: nat, v: SInt)
    requires HasAt(data, at, SIntBytes(v))
    ensures ReadSInt(data, at, 0, 0) == if InDomain(v) then Some(Read(v, at + |SIntBytes(v)|)) else None
  {
    assert AtGroup(v, 0) == v;
    SIntRoundTrip(data, at, 0, 0, v);
  }

  lemma PlaceComesBack(data: seq<Byte>, at: nat, r: Record)
    requires HasAt(data, at, PlaceBytes(r))
    ensures ReadPlace(data, at) ==
              if InDomain(r.offset) then Some(Read((r.vType, r.name, r.offset), at + |PlaceBytes(r)|)) else None
  {
    hide ReadSInt, SIntBytes, InDomain, Pow2;
    HasBoth(data, at, r.vType + r.name, SIntBytes(r.offset));
    HasBoth(data, at, r.vType, r.name);
    SIntComesBack(data, at + 2 * HANDLE_SIZE, r.offset);
  }

  lemma SpanComesBack(data: seq<Byte>, at: nat, r: Record)
    requires HasAt(data, at, SpanBytes(r))
    ensures ReadSpan(data, at) ==
              Some(Read((r.startInstruction, r.endInstruction, r.notNullInstruction), at + |SpanBytes(r)|))
  {
    hide HasAt, ReadUInt, UIntBytes, Pow2;
    var a, b, c := UIntBytes(r.startInstruction), UIntBytes(r.endInstruction), UIntBytes(r.notNullInstruction);
    HasBoth(data, at, a + b, c);
    HasBoth(data, at, a, b);
    UIntComesBack(data, at, r.startInstruction);
    UIntComesBack(data, at + |a|, r.endInstruction);
    UIntComesBack(data, at + |a| + |b|, r.notNullInstruction);
  }

  lemma OriginComesBack(data: seq<Byte>, at: nat, r: Record)
    requires HasAt(data, at, OriginBytes(r))
    ensures ReadOrigin(data, at) ==
              if InDomain(r.pointerSource) then Some(Read((r.pointerSource, r.pointerSourceType, r.flags), at + |OriginBytes(r)|))
              else None
  {
    hide HasAt, ReadUInt, ReadSInt, UIntBytes, SIntBytes, FlagBits, FlagsOf, InDomain, Pow2;
    var a, b, c := SIntBytes(r.pointerSource), UIntBytes(r.pointerSourceType), UIntBytes(FlagBits(r.flags));
    HasBoth(data, at, a + b, c);
    HasBoth(data, at, a, b);
    SIntComesBack(data, at, r.pointerSource);
    UIntComesBack(data, at + |a|, r.pointerSourceType);
    UIntComesBack(data, at + |a| + |b|, FlagBits(r.flags));
    FlagsRoundTrip(r.flags);
  }

  /** A record is read back whole, with exactly the bytes written, if and only if its signed
      fields are in -2^62 .. 2^62 - 1. */
  lemma RecordRoundTrip(data: seq<Byte>, at: nat, r: Record)
    requires HasAt(data, at, RecordBytes(r))
    ensures ReadRecord(data, at) ==
              if InDomain(r.offset) && InDomain(r.pointerSource) then Some(Read(r, at + |RecordBytes(r)|)) else None
  {
    hide HasAt, ReadPlace, ReadSpan, ReadOrigin, PlaceBytes, SpanBytes, OriginBytes, InDomain;
    HasBoth(data, at, PlaceBytes(r) + SpanBytes(r), OriginBytes(r));
    HasBoth(data, at, PlaceBytes(r), SpanBytes(r));
    PlaceComesBack(data, at, r);
    SpanComesBack(data, at + |PlaceBytes(r)|, r);
    OriginComesBack(data, at + |PlaceBytes(r)| + |SpanBytes(r)|, r);
  }

  // ---------------------------------------------------------------- writing and reading in place

  /** Where bytes are written; without one they are only counted. */
  class Sink {
    const buffer: array<Byte>
    var position: nat

    constructor (buffer: array<Byte>)
      ensures this.buffer == buffer && position == 0
    {
      this.buffer := buffer;
      position := 0;
    }

    ghost predicate HasRoom(n: nat)
      reads this
    {
      position + n <= buffer.Length
    }
  }

  class Cursor {
    const data: seq<Byte>
    var position: nat

    constructor (data: seq<Byte>)
      ensures this.data == data && position == 0
    {
      this.data := data;
      position := 0;
    }
  }

  /** `buffer` with `bytes` written at `at`. */
  function Written(buffer: seq<Byte>, at: nat, bytes: seq<Byte>): (r: seq<Byte>)
    requires at + |bytes| <= |buffer|
    ensures |r| == |buffer| && r[at..at + |bytes|] == bytes
  {
    buffer[..at] + bytes + buffer[at + |bytes|..]
  }

  lemma WrittenTwice(buffer: seq<Byte>, at: nat, a: seq<Byte>, b: seq<Byte>)
    requires at + |a| + |b| <= |buffer|
    ensures Written(Written(buffer, at, a), at + |a|, b) == Written(buffer, at, a + b)
  {
  }

  /** Copies the first `n` of `bytes`, if there is anywhere to copy them to. */
  method PushBytes(out: Sink?, bytes: array<Byte>, n: nat)
    requires n <= bytes.Length && (out != null ==> out.HasRoom(n) && out.buffer != bytes)
    modifies out, if out == null then {} else {out.buffer}
    ensures out != null ==> out.position == old(out.position) + n
    ensures out != null ==> out.buffer[..] == Written(old(out.buffer[..]), old(out.position), old(bytes[..n]))
  {
    if out != null {
      var at := out.position;
      ghost var was := out.buffer[..];
      var i := 0;
      while i < n
        invariant i <= n
        invariant out.buffer[..] == Written(was, at, bytes[..i])
        modifies out.buffer
      {
        out.buffer[at + i] := bytes[i];
        i := i + 1;
      }
      out.position := at + n;
    }
  }

  method PushRef(out: Sink?, h: Handle) returns (nBytes: nat)
    requires out != null ==> out.HasRoom(HANDLE_SIZE)
    modifies out, if out == null then {} else {out.buffer}
    ensures nBytes == HANDLE_SIZE
    ensures out != null ==> out.position == old(out.position) + nBytes
    ensures out != null ==> out.buffer[..] == Written(old(out.buffer[..]), old(out.position), h)
  {
    var bytes := new Byte[HANDLE_SIZE](i requires 0 <= i < HANDLE_SIZE => h[i]);
    assert bytes[..HANDLE_SIZE] == h;
    PushBytes(out, bytes, HANDLE_SIZE);
    return HANDLE_SIZE;
  }

  method PushUInt(out: Sink?, value: UInt) returns (nBytes: nat)
    requires out != null ==> out.HasRoom(|UIntBytes(value)|)
    modifies out, if out == null then {} else {out.buffer}
    ensures nBytes == |UIntBytes(value)|
    ensures out != null ==> out.position == old(out.position) + nBytes
    ensures out != null ==> out.buffer[..] == Written(old(out.buffer[..]), old(out.position), UIntBytes(value))
  {
    UIntFits(value);
    var bytes := new Byte[16];
    nBytes := EncodeUInt(bytes, value);
    PushBytes(out, bytes, nBytes);
  }

  method EncodeUInt(bytes: array<Byte>, value: UInt) returns (nBytes: nat)
    requires bytes.Length == 16
    modifies bytes
    ensures nBytes <= 16 && bytes[..nBytes] == UIntBytes(value)
  {
    UIntFits(value);
    var v := value;
    nBytes := 0;
    while true
      invariant 0 <= v && nBytes + |UIntBytes(v)| == |UIntBytes(value)| <= 10
      invariant bytes[..nBytes] + UIntBytes(v) == UIntBytes(value)
      modifies bytes
      decreases v
    {
      bytes[nBytes] := v % 128;
      nBytes := nBytes + 1;
      if v % 128 == v {
        break;
      }
      bytes[nBytes - 1] := bytes[nBytes - 1] + 128;
      v := v / 128;
    }
  }

  lemma UIntFits(v: UInt)
    ensures |UIntBytes(v)| <= 10
  {
    TwoToThe();
    Pow2Monotone(64, 70);
    UIntSize(v, 10);
  }

  lemma SIntFits(v: SInt)
    ensures |SIntBytes(v)| <= 10
  {
    TwoToThe();
    Pow2Monotone(63, 69);
    SIntSize(v, 10);
  }

  method PushSInt(out: Sink?, value: SInt) returns (nBytes: nat)
    requires out != null ==> out.HasRoom(|SIntBytes(value)|)
    modifies out, if out == null then {} else {out.buffer}
    ensures nBytes == |SIntBytes(value)|
    ensures out != null ==> out.position == old(out.position) + nBytes
    ensures out != null ==> out.buffer[..] == Written(old(out.buffer[..]), old(out.position), SIntBytes(value))
  {
    SIntFits(value);
    var bytes := new Byte[16];
    nBytes := EncodeSInt(bytes, value);
    PushBytes(out, bytes, nBytes);
  }

  method EncodeSInt(bytes: array<Byte>, value: SInt) returns (nBytes: nat)
    requires bytes.Length == 16
    modifies bytes
    ensures nBytes <= 16 && bytes[..nBytes] == SIntBytes(value)
  {
    SIntFits(value);
    var v: int := value;
    nBytes := 0;
    while true
      invariant nBytes + |SIntBytes(v)| == |SIntBytes(value)| <= 10
      invariant bytes[..nBytes] + SIntBytes(v) == SIntBytes(value)
      modifies bytes
      decreases if v < 0 then -v else v
    {
      hide Small, AsInt8;
      SmallByShift(v);
      var extendedSmall := AsInt8(v % 128 * 2);
      bytes[nBytes] := v % 128;
      nBytes := nBytes + 1;
      if extendedSmall / 2 == v {
        break;
      }
      bytes[nBytes - 1] := bytes[nBytes - 1] + 128;
      v := v / 128;
    }
  }

  lemma SmallByShift(v: int)
    ensures AsInt8(v % 128 * 2) / 2 == Small(v)
  {
  }

  /** The byte `b` as a signed number. */
  function AsInt8(b: Byte): int
  {
    if b >= 128 then b - 256 else b
  }

  /** The pops answer None where the source has no defined behaviour. */
  method PopRef(from: Cursor) returns (r: Option<Handle>, nBytes: nat)
    modifies from
    ensures Popped(old(from.position), from.position, nBytes, r, ReadHandle(from.data, old(from.position)))
  {
    if from.position + HANDLE_SIZE > |from.data| {
      return None, 0;
    }
    r := Some(from.data[from.position..from.position + HANDLE_SIZE]);
    from.position := from.position + HANDLE_SIZE;
    nBytes := HANDLE_SIZE;
  }

  /** `r` and the new position are what was to be read, and `nBytes` is how much that was. */
  ghost predicate Popped<T(!new)>(before: nat, after: nat, nBytes: nat, r: Option<T>, read: Option<Read<T>>)
  {
    match read
    case None => r == None
    case Some(read) => r == Some(read.value) && after == read.next && after == before + nBytes
  }

  method PopUInt(from: Cursor) returns (r: Option<UInt>, nBytes: nat)
    modifies from
    ensures Popped(old(from.position), from.position, nBytes, r, ReadUInt(from.data, old(from.position), 0, 0))
  {
    hide Pow2, ShiftLeft;
    ghost var data, start := from.data, from.position;
    var at, bitOffs, dec := from.position, 0, 0;
    nBytes := 0;
    assert Pow2(7 * nBytes) == 1 by {
      PowerOfNone();
    }
    while true
      invariant at == start + nBytes && bitOffs == 7 * nBytes
      invariant 0 <= dec < Pow2(7 * nBytes) && ReadUInt(data, start, 0, 0) == ReadUInt(data, at, nBytes, dec)
      modifies {}
      decreases |data| - at
    {
      if at >= |from.data| || bitOffs >= 64 {
        return None, nBytes;
      }
      var b := from.data[at];
      at := at + 1;
      GroupBounds(dec, b % 128, nBytes);
      dec := dec + ShiftLeft(b % 128, bitOffs);
      nBytes := nBytes + 1;
      bitOffs := bitOffs + 7;
      if b < 128 {
        break;
      }
    }
    from.position := at;
    r := Some(dec);
  }

  method PopSInt(from: Cursor) returns (r: Option<SInt>, nBytes: nat)
    modifies from
    ensures Popped(old(from.position), from.position, nBytes, r, ReadSInt(from.data, old(from.position), 0, 0))
  {
    hide Pow2, ShiftLeft, SignExtend;
    ghost var data, start := from.data, from.position;
    var at, bitOffs, dec := from.position, 0, 0;
    nBytes := 0;
    assert Pow2(7 * nBytes) == 1 by {
      PowerOfNone();
    }
    while true
      invariant at == start + nBytes && bitOffs == 7 * nBytes
      invariant 0 <= dec < Pow2(7 * nBytes)
      invariant if nBytes <= 9 then ReadSInt(data, start, 0, 0) == ReadSInt(data, at, nBytes, dec) else ReadSInt(data, start, 0, 0) == None
      modifies {}
      decreases |data| - at
    {
      if at >= |from.data| || bitOffs >= 64 {
        return None, nBytes;
      }
      var b := from.data[at];
      at := at + 1;
      GroupBounds(dec, b % 128, nBytes);
      dec := dec + ShiftLeft(b % 128, bitOffs);
      nBytes := nBytes + 1;
      bitOffs := bitOffs + 7;
      if b < 128 {
        break;
      }
    }
    if bitOffs > 64 {
      return None, nBytes;
    }
    r := Some(SignExtend(dec, bitOffs));
    from.position := at;
  }

  lemma PowerOfNone()
    ensures Pow2(0) == 1
  {
  }

  /** rdxSStackJournal. */
  class StackJournal {
    var vType: Handle
    var name: Handle
    var offset: SInt
    var startInstruction: UInt
    var endInstruction: UInt
    var notNullInstruction: UInt
    var pointerSource: SInt
    var pointerSourceType: UInt
    var isPointer: bool
    var isVarying: bool
    var isConstant: bool
    var isNotNull: bool
    var isParameter: bool
    var isFromLocal: bool
    var isTraceable: bool

    ghost function Fields(): Record
      reads this
    {
      Record(vType, name, offset, startInstruction, endInstruction, notNullInstruction, pointerSource, pointerSourceType,
             Flags(isPointer, isVarying, isConstant, isNotNull, isParameter, isFromLocal, isTraceable))
    }

    method PackFlags() returns (flags: UInt)
      ensures flags == FlagBits(Fields().flags)
    {
      flags := 0;
      if isPointer { flags := flags + 1; }
      if isVarying { flags := flags + 2; }
      if isConstant { flags := flags + 4; }
      if isNotNull { flags := flags + 8; }
      if isParameter { flags := flags + 16; }
      if isFromLocal { flags := flags + 32; }
      if isTraceable { flags := flags + 64; }
    }

    method CompressPlace(out: Sink?) returns (nBytes: nat)
      requires out != null ==> out.HasRoom(|PlaceBytes(Fields())|)
      modifies out, if out == null then {} else {out.buffer}
      ensures nBytes == |PlaceBytes(Fields())|
      ensures out != null ==> out.position == old(out.position) + nBytes
      ensures out != null ==> out.buffer[..] == Written(old(out.buffer[..]), old(out.position), PlaceBytes(Fields()))
    {
      hide SIntBytes, Written;
      nBytes := 0;
      var n := PushRef(out, vType);
      nBytes := nBytes + n;
      n := PushRef(out, name);
      nBytes := nBytes + n;
      n := PushSInt(out, offset);
      nBytes := nBytes + n;
      if out != null {
        WrittenThrice(old(out.buffer[..]), old(out.position), vType, name, SIntBytes(offset));
      }
    }

    method CompressSpan(out: Sink?) returns (nBytes: nat)
      requires out != null ==> out.HasRoom(|SpanBytes(Fields())|)
      modifies out, if out == null then {} else {out.buffer}
      ensures nBytes == |SpanBytes(Fields())|
      ensures out != null ==> out.position == old(out.position) + nBytes
      ensures out != null ==> out.buffer[..] == Written(old(out.buffer[..]), old(out.position), SpanBytes(Fields()))
    {
      hide UIntBytes, Written;
      nBytes := 0;
      var n := PushUInt(out, startInstruction);
      nBytes := nBytes + n;
      n := PushUInt(out, endInstruction);
      nBytes := nBytes + n;
      n := PushUInt(out, notNullInstruction);
      nBytes := nBytes + n;
      if out != null {
        WrittenThrice(old(out.buffer[..]), old(out.position), UIntBytes(startInstruction), UIntBytes(endInstruction), UIntBytes(notNullInstruction));
      }
    }

    method CompressOrigin(out: Sink?) returns (nBytes: nat)
      requires out != null ==> out.HasRoom(|OriginBytes(Fields())|)
      modifies out, if out == null then {} else {out.buffer}
      ensures nBytes == |OriginBytes(Fields())|
      ensures out != null ==> out.position == old(out.position) + nBytes
      ensures out != null ==> out.buffer[..] == Written(old(out.buffer[..]), old(out.position), OriginBytes(Fields()))
    {
      hide UIntBytes, SIntBytes, FlagBits, Written;
      nBytes := 0;
      var n := PushSInt(out, pointerSource);
      nBytes := nBytes + n;
      n := PushUInt(out, pointerSourceType);
      nBytes := nBytes + n;
      var flags := PackFlags();
      n := PushUInt(out, flags);
      nBytes := nBytes + n;
      if out != null {
        WrittenThrice(old(out.buffer[..]), old(out.position), SIntBytes(pointerSource), UIntBytes(pointerSourceType), UIntBytes(flags));
      }
    }

    /** Writes the record to `out`, or only counts its bytes. */
    method Compress(out: Sink?) returns (nBytes: nat)
      requires out != null ==> out.HasRoom(|RecordBytes(Fields())|)
      modifies out, if out == null then {} else {out.buffer}
      ensures nBytes == |RecordBytes(Fields())|
      ensures out != null ==> out.position == old(out.position) + nBytes
      ensures out != null ==> out.buffer[..] == Written(old(out.buffer[..]), old(out.position), RecordBytes(Fields()))
    {
      hide PlaceBytes, SpanBytes, OriginBytes, Written;
      nBytes := 0;
      var n := CompressPlace(out);
      nBytes := nBytes + n;
      n := CompressSpan(out);
      nBytes := nBytes + n;
      n := CompressOrigin(out);
      nBytes := nBytes + n;
      if out != null {
        WrittenThrice(old(out.buffer[..]), old(out.position), PlaceBytes(Fields()), SpanBytes(Fields()), OriginBytes(Fields()));
      }
    }

    method DecompressPlace(from: Cursor) returns (nBytes: Option<nat>)
      modifies `vType, `name, `offset, from
      ensures Popped(old(from.position), from.position, if nBytes == None then 0 else nBytes.value,
                     if nBytes == None then None else Some((vType, name, offset)), ReadPlace(from.data, old(from.position)))
    {
      hide ReadSInt, ReadHandle;
      var handle, n := PopRef(from);
      vType :- handle;
      var total := n;
      handle, n := PopRef(from);
      name :- handle;
      total := total + n;
      var sint;
      sint, n := PopSInt(from);
      offset :- sint;
      return Some(total + n);
    }

    method DecompressSpan(from: Cursor) returns (nBytes: Option<nat>)
      modifies `startInstruction, `endInstruction, `notNullInstruction, from
      ensures Popped(old(from.position), from.position, if nBytes == None then 0 else nBytes.value,
                     if nBytes == None then None else Some((startInstruction, endInstruction, notNullInstruction)),
                     ReadSpan(from.data, old(from.position)))
    {
      hide ReadUInt;
      var uint, n := PopUInt(from);
      startInstruction :- uint;
      var total := n;
      uint, n := PopUInt(from);
      endInstruction :- uint;
      total := total + n;
      uint, n := PopUInt(from);
      notNullInstruction :- uint;
      return Some(total + n);
    }

    method UnpackFlags(flags: nat)
      modifies `isPointer, `isVarying, `isConstant, `isNotNull, `isParameter, `isFromLocal, `isTraceable
      ensures Fields().flags == FlagsOf(flags)
    {
      hide HasBit;
      isPointer := HasBit(flags, 0);
      isVarying := HasBit(flags, 1);
      isConstant := HasBit(flags, 2);
      isNotNull := HasBit(flags, 3);
      isParameter := HasBit(flags, 4);
      isFromLocal := HasBit(flags, 5);
      isTraceable := HasBit(flags, 6);
    }

    method DecompressOrigin(from: Cursor) returns (nBytes: Option<nat>)
      modifies `pointerSource, `pointerSourceType, `isPointer, `isVarying, `isConstant, `isNotNull, `isParameter, `isFromLocal, `isTraceable, from
      ensures Popped(old(from.position), from.position, if nBytes == None then 0 else nBytes.value,
                     if nBytes == None then None else Some((pointerSource, pointerSourceType, Fields().flags)),
                     ReadOrigin(from.data, old(from.position)))
    {
      hide ReadSInt, ReadUInt, FlagsOf;
      var sint, n := PopSInt(from);
      pointerSource :- sint;
      var total := n;
      var uint;
      uint, n := PopUInt(from);
      pointerSourceType :- uint;
      total := total + n;
      uint, n := PopUInt(from);
      var flags :- uint;
      UnpackFlags(flags);
      return Some(total + n);
    }

    /** Reads the record back; None where a shift or a read is not defined. */
    method Decompress(from: Cursor) returns (nBytes: Option<nat>)
      modifies this, from
      ensures match ReadRecord(from.data, old(from.position))
              case None => nBytes == None
              case Some(read) => Fields() == read.value && from.position == read.next && nBytes == Some(read.next - old(from.position))
    {
      hide ReadPlace, ReadSpan, ReadOrigin;
      var placeBytes := DecompressPlace(from);
      var total :- placeBytes;
      var spanBytes := DecompressSpan(from);
      var more :- spanBytes;
      total := total + more;
      var originBytes := DecompressOrigin(from);
      more :- originBytes;
      return Some(total + more);
    }
  }

  lemma WrittenThrice(buffer: seq<Byte>, at: nat, a: seq<Byte>, b: seq<Byte>, c: seq<Byte>)
    requires at + |a| + |b| + |c| <= |buffer|
    ensures var first := Written(buffer, at, a);
            Written(Written(first, at + |a|, b), at + |a| + |b|, c) == Written(buffer, at, a + b + c)
  {
    hide Written;
    WrittenTwice(buffer, at, a, b);
    WrittenTwice(buffer, at, a + b, c);
  }

  /** What `Compress` leaves in a buffer, `Decompress` reads from it. */
  lemma BufferRoundTrip(buffer: seq<Byte>, at: nat, r: Record)
    requires at + |RecordBytes(r)| <= |buffer|
    ensures ReadRecord(Written(buffer, at, RecordBytes(r)), at) ==
              if InDomain(r.offset) && InDomain(r.pointerSource) then Some(Read(r, at + |RecordBytes(r)|)) else None
  {
    RecordRoundTrip(Written(buffer, at, RecordBytes(r)), at, r);
  }
}
