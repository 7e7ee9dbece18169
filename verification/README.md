# Verification of the LZ4 codec and the RDX runtime

This project models four parts of the repository and proves what each of them is for.

* **The LZ4 block codec** (`src/lz4/lz4.c`, `src/lz4/lz4hc.c`), in its 64-bit little-endian
  configuration, with pointers as indices into byte arrays. `Lz4Format` is a small reference
  decoder after the "LZ4 Block Format Description" ("Compressed block format", "End of block
  restrictions"). `Lz4Copy`, `Lz4Count`, `Lz4Decode` and `Lz4DecodeFast` prove the word-wide
  copies, the word-wide comparison, the decoder that checks its input and the one that does not
  against it; `Lz4Stop` says where the checked decoder stops, `Lz4Margins` and `Lz4FastMargins`
  which encoded blocks the decoders take. `Lz4Greedy` is the parse of LZ4_compress as a function,
  and what it achieves; `Lz4HcParse` is that of the high-compression mode, step by step, with its
  chains in `Lz4HcChains` and its laws in `Lz4HcLaws`. `Lz4Emit`, `Lz4Fast`, `Lz4HcFinder` and
  `Lz4HcParser` prove the two compressors against these, tables, match finders and all. `Lz4Size`
  says how large a block can be; `Lz4` has the entry points and the round trips.
* **The stack verifier and frame layout of the IL compiler** (`src/rdx/rdx_ilcomp.cpp`), for
  fifteen opcodes. `IlStacks` and `IlLinear` are the linear pass as a function, `IlRanges` the jump
  ranges it writes down, `IlRules` when an instruction is taken, `IlJumps` and `IlRuns` what the
  ranges mean for control flow, `IlWritten` which operands have been written, `IlTypes` the types of
  what a run stores, `IlFrame`, `IlMethod` and `IlTight` the passes, offsets and frame of a whole
  method, `IlPasses` the middle of a pass, `IlCounting` the pass that sizes the stacks, and
  `IlCompiler` the compiler object, which changes its stacks, maxima and ranges in place.
  `IlExamples` holds a method that is accepted although one jump is wrong, one whose jump leaves a
  value unwritten, and one whose frame is too small; `IlConversions` one that compiles with
  conversions in one direction only.
* **The open-addressing hash map** (`src/rdx/rdx_hashmap.hpp`): `HashMap`, an array changed in
  place, against an abstract map. The home slot is the hash modulo the number of entries, as
  `src/rdx/rdx_utility.hpp:173-176` has it; the hash function is arbitrary.
* **Two serialisation codecs**: `Journal`, the compressed record of the stack journal
  (`src/rdx/rdx_ilcomp.hpp`), and `NumberText`, `FloatText` and `FloatValue`, integers as decimal
  text and floating point numbers as exact text `fraction^exponent` (`src/rdx/rdx_constants.cpp`).

`Words` and `Wrappers` hold bytes, 64-bit words, powers of two, and the types of optional and of
read values.
`dafny verify dfyconfig.toml` checks everything.

## Conventions

Where the source works in place the model has methods over arrays or objects, proved against
functions of the old contents; the lemmas are about those functions. Depths stand for negated
frame offsets. Exceptions are error results. `None` stands for what the source leaves undefined,
an invalid shift, a read past the end, an integer overflow, or for a loop that never ends. Where
the source converts a size to int, so does the model (`Lz4Size.AsInt`).

A few lemmas and methods have to be read with what the code does in mind:

* The comment at `src/lz4/lz4.h:86-88` promises that the safe decoder never reads outside its
  input. It breaks the promise exactly if there is room in the output and the input is empty, or
  a single byte of 0xF0 or more: with memory that ends where the input does, `DecompressSafe` and
  `DecompressSafeUsingDict` answer `None` if and only if it is one of these, and
  `ReadsBeyondInput` has both. A block that a compressor wrote is never one of them
  (`BlockReadsInside`).
* The unchecked decoder is not told where its input ends. `Lz4DecodeFast.FastEnd` says for any
  memory whether it reads outside, rejects, or how much it reads.
* Only the last match of a block decides whether a decoder takes it. The checked one wants it to
  begin 12 bytes or more before the end of the output buffer and to end 5 or more before it, with
  8 bytes of input behind its literals (`Lz4Margins.AcceptedIff`); the unchecked one wants 5
  closing literals (`Lz4FastMargins.FastDecodesIff`).
* The high-compression mode misses no repeat as far back as it may try candidates: from level 17
  on it writes a sequence if and only if four bytes repeat within 65535
  (`Lz4HcLaws.RepeatsFoundIff`).
* Nothing in the decoder rejects offset zero. `ReferenceAcceptsIff` says that this is the only way
  in which an accepted block can fail to be one of the format.
* `src/lz4/lz4hc.c:810` converts the size of the block to int, and nothing limits the source.
  Sizes are right for every source of up to 2139095038 bytes; for every longer length there are
  sources that no block of an int size encodes (`Lz4Size.BlocksFitIff`,
  `Lz4Size.SomeNeverFitsIff`), and for these the compressor answers a negative size. The count
  that LZ4_decompress_fast answers (`src/lz4/lz4.c:1037`) has the same limit, and its error code
  is negative only up to 2 GB read, and then for every other 2 GB.
* `src/lz4/lz4hc.h:72` says that levels above 16 behave as level 16; `src/lz4/lz4hc.c:631` tries
  twice as many candidates: see `Lz4HcParse.LevelsAbove16`. A negative level shifts by a negative
  count, which is not defined; the number of candidates is then a parameter.
* The check of the operands at a StartBarrier (`src/rdx/rdx_ilcomp.cpp:1173-1176`) demands two
  things that exclude each other before it fails, so it never fails; the model leaves it out.
  Nothing is lost: in every method that gets through the pass each StartBarrier stands over as
  many shells as it guards (`IlLinear.StartBarrierShells`).
* A jump to an EndBarrier is accepted from anywhere, since the range of that instruction is not
  narrowed. `JumpToEndBarrierIff` states exactly when that is right for the shape of the stacks.
  Runs keep their shape up to the first such stray jump, and every reachable state is sound if
  and only if no stray jump is reachable (`IlRuns.RunsSoundIff`). `StrayJumpReached` has a run
  that comes to one. A jump from inside the barrier keeps the shape, but passes by the return
  that writes the shells, which the EndBarrier then takes for values: all values have been
  written if and only if no run comes to any written jump to an EndBarrier
  (`IlWritten.RunsWrittenIff`, `JumpInsideUnwritten`).
* An allocated local holds the default value of its type, and a move keeps the type of the value
  that it stores; conversions are what `compatible` allows, in that direction, and nothing is
  assumed about it. Where conversions compose, one is enough (`IlTypes.ReachesAtOnce`).
* `rdx.txt:520` says that a pop may not take a shell, and `rdx.txt:529` that returned values must not
  need a conversion; the code takes anything but a barrier
  (`src/rdx/rdx_ilcomp.cpp:3114-3126`) and allows conversions
  (`src/rdx/rdx_ilcomp.cpp:3238-3418`), and so does the model (`IlRules.TakenIff`).
* A text with more bits in its fraction than the format has is not read as the number it denotes:
  `FloatValue.ValueDecodesIff` has the exact condition.
* `frameCapacity` comes from the operand maximum alone; `FrameCoversLocalsIff` says when it is
  enough for the locals, and `FrameTooSmall` has a method for which it is not.
* A local is refused when twice its end and its alignment exceed the signed range, since
  `src/rdx/rdx_ilcomp.cpp:846-847` adds the offset twice; `PushLocal` says so.
* RemoveEntry chooses between an empty and a deleted slot and then always leaves a deleted one
  (`src/rdx/rdx_hashmap.hpp:229-254`); the model does the same.

## Model

| member | source | states |
|---|---|---|
| Lz4.FastRoundTrip | src/lz4/lz4.c:645-663 | for every source up to LZ4_MAX_INPUT_SIZE the compressed block is at most the bound; given just the block, LZ4_decompress_safe with any capacity from the source length on returns the source, and LZ4_decompress_fast returns it too and answers the compressed length |
| Lz4.HcRoundTrip | src/lz4/lz4hc.c:814-824 | for every source, buffer address and compression level: the answer is the size of the block if that is an int, and negative otherwise; with a size, and given just the block, LZ4_decompress_safe with any sufficient capacity and LZ4_decompress_fast return the source; every source of up to 2139095038 bytes gets its size, and no longer one without repeats does |
| Lz4.SizeOverflows | src/lz4/lz4hc.c:810 | converted to int the size of a block is itself, or negative if it exceeds 2^31 - 1, as it does for more than 2139095038 bytes without repeats |
| Lz4Size.BlockSize | src/lz4/lz4.h:96 | no block of any data is larger than that of the literals alone, which is at most the bound |
| Lz4Size.LargestBlock | src/lz4/lz4hc.c:798-807 | data in which no four bytes repeat within 65535 have only that block |
| Lz4Size.BlocksFitIff | src/lz4/lz4hc.c:810 | the blocks of all sources of a length have sizes that are ints if and only if the length is at most 2139095038 |
| Lz4Size.SomeNeverFitsIff | src/lz4/lz4hc.c:810 | there is a source of a length all of whose blocks have sizes that are no ints if and only if the length exceeds 2139095038 |
| Lz4Size.CounterHasNoRepeats | src/lz4/lz4hc.c:810 | a counter of two digits below 255 behind bytes of 255 is such a source, at every length |
| Lz4.DecompressSafe | src/lz4/lz4.c:1045-1048 | reads outside the memory at the source exactly if there is room in the output and no token there, or nothing behind a single token of 0xF0 or more; a rejection answers minus one minus the input position where decoding stops; an encoded list of sequences is decoded to its data if there is room and its last match keeps the margins of 12 and 5 bytes, and rejected otherwise; any input succeeds exactly if it has a strict size, which is the answer, and without zero offsets the bytes are those of the byte-by-byte reference decoder; every well-formed block is decoded |
| Lz4.EncodedSafe | src/lz4/lz4.c:938-958 | the margins that decide about an encoded block decide it in every buffer, one of no bytes included |
| Lz4.ReadsBeyondInput | src/lz4/lz4.c:919-932 | the empty input and the input 0xF0 are read beyond by the safe decoder, in every output that has room |
| Lz4.BlockReadsInside | src/lz4/lz4.c:919-932 | a block that encodes some data is never read beyond |
| Lz4.DecompressFast | src/lz4/lz4.c:1055-1058 | in any memory: reads outside it or before the output, rejects with the specified answer, or fills the output with what the reference decoder says and returns, converted to int, how many bytes it read; the count is right for every output of up to 2139095038 bytes; a block for just this output, with anything behind it, is decoded |
| Lz4.BlockIsFast | src/lz4/lz4.c:938-958 | on a block that encodes data of the size of the output, whatever stands behind it, the unchecked decoder stops at its end |
| Lz4.DecompressSafeUsingDict | src/lz4/lz4.c:1156-1159 | decodes as the reference decoder does with the dictionary bytes immediately before the output, for every dictionary size; reads outside the memory exactly in the cases of DecompressSafe |
| Lz4.BlockAccepted | src/lz4/lz4.c:938-958 | a block that encodes some data is accepted in every buffer large enough, has no zero offset, and is decoded to the data |
| Lz4Margins.AcceptedIff | src/lz4/lz4.c:938-958 | an encoded list of sequences decodes to its data by the reference decoder, and the checked decoder takes it if and only if there is room and the last match begins 12 bytes or more before the end of the buffer, ends 5 or more before it, and has 8 bytes of input behind its literals (4 behind a continued match length) |
| Lz4Margins.AlwaysAcceptedIff | src/lz4/lz4.c:229-231 | all encoded blocks whose matches begin k bytes and end l bytes before the end are accepted into just the room for their data if and only if l is at least 5 and k at least 12 (or l at least 8) |
| Lz4Margins.EndsInTimeIff | src/lz4/lz4.c:229-231 | the end-of-block restrictions that compressed blocks keep are the margins of 12 and 5 bytes |
| Lz4Margins.LiteralsAloneIff | src/lz4/lz4.c:628-638 | a block is that of its literals alone if and only if it has no sequences |
| Lz4FastMargins.FastDecodesIff | src/lz4/lz4.c:938-958 | with a word of memory behind it, an encoded block is decoded by the unchecked decoder into just the room for its data if and only if it has no sequence or closes with 5 literals or more, and rejected otherwise |
| Lz4.ReferenceAcceptsIff | src/lz4/lz4.c:959-961 | among the blocks the safe decoder accepts, the reference decoder accepts exactly those without a zero offset (the code never rejects offset zero) |
| Lz4.ZeroOffsetAccepted | src/lz4/lz4.c:959-961 | a concrete block with a match at distance zero is accepted by the safe decoder and is no block of the format |
| Lz4Format.StrictIsReference | src/lz4/lz4.c:938-961 | a block with a strict size and no zero offset is one the reference decoder accepts, with just as many bytes |
| Lz4Format.BlockDecodes | src/lz4/lz4.c:628-642 | the bytes of any list of sequences that keeps the end-of-block restrictions, with its closing literals, decode to the data that the list expands to |
| Lz4Format.EncodingExamples | src/lz4/lz4.c:534-593 | some lengths, sequences and closing literals in bytes; what can be encoded, in numbers |
| Lz4Format.ReadEncodedSequence | src/lz4/lz4.c:534-593 | wherever one encoded sequence stands in a block, reading there gives back its literals, offset and match length and stops right behind it |
| Lz4Format.ReadEncodedClosing | src/lz4/lz4.c:628-638 | encoded closing literals at the end of a block are read back as just those literals |
| Lz4Format.ReadLengthBytes | src/lz4/lz4.c:582-592 | a length written as nibble and extension bytes is read back, with exactly the bytes written |
| Lz4Format.CopyMatchUnique | src/lz4/lz4.c:1009-1031 | any continuation of the output in which every byte equals the one `offset` before is the result of copying one byte at a time |
| Lz4Format.CopyMatchRepeats | src/lz4/lz4.c:1009-1031 | copying one byte at a time makes every copied byte equal the one `offset` before it, overlap included |
| Lz4Copy.CopyOverlapping | src/lz4/lz4.c:1009-1030 | for every offset and length, with the start-up tables for offsets 1 to 7, word-wide copies and the near-end branch: the match range repeats at the offset, nothing before it changes, and it fails exactly when the match ends within the last 5 bytes |
| Lz4Copy.CopyFirstWord | src/lz4/lz4.c:1011-1021 | the start-up makes the first 8 bytes repeat at the offset and leaves the copy source a multiple of the offset, at least 8, behind |
| Lz4Copy.StartCloseMatch | src/lz4/lz4.c:1013-1020 | the same for offsets below 8, where the tables dec32table and dec64table place the source |
| Lz4Copy.CopyRest | src/lz4/lz4.c:1023-1030 | the rest of the match is a copy from that distance, whether word-wide or byte by byte near the end of the buffer |
| Lz4Copy.PeriodContinues | src/lz4/lz4.c:1009-1030 | bytes copied from a multiple of the offset behind continue the period of the offset itself |
| Lz4Copy.WildCopyFrom | src/lz4/lz4.c:292-296 | the 8-byte copy loop copies the wanted range and overshoots by at most 8 bytes |
| Lz4Copy.WildCopyWithin | src/lz4/lz4.c:292-296 | the same inside the output: every byte copied equals the one at the distance, if that is at least 8 |
| Lz4Count.Count | src/lz4/lz4.c:413-429 | the word-wide comparison with its 4, 2 and 1 byte tail returns exactly the longest common length of any two positions up to the limit |
| Lz4Count.CountTail | src/lz4/lz4.c:425-427 | so does the tail alone when less than a word is left |
| Lz4Count.CommonLengthIsLongest | src/lz4/lz4hc.c:424-439 | no common length up to the limit is longer than the specified one |
| Lz4Count.CommonLengthSplit | src/lz4/lz4.c:413-429 | a block of equal bytes can be counted off; a block with a difference bounds the length |
| Lz4Count.NbCommonBytes | src/lz4/lz4.c:304-334 | the number of equal low bytes of two different words is the common length at that place |
| Lz4Count.Read32Equal | src/lz4/lz4.c:528 | four bytes read as one number are equal exactly if the bytes are |
| Lz4Decode.DecompressGeneric | src/lz4/lz4.c:877-1042 | the checked decoder loop, with and without an external dictionary, against the strict size, the reference decoder, and the specified end: outside the memory, a rejection at an input position, or so many bytes |
| Lz4Stop.StopExamples | src/lz4/lz4.c:938-1040 | the input positions at which a literal run, an offset, a match length and a match are rejected, each in a concrete block |
| Lz4Stop.LiteralRunStops | src/lz4/lz4.c:927-932 | the loop for a literal length stops 15 bytes before the end of the input, even at a byte of 255 |
| Lz4Decode.DecodeSequence | src/lz4/lz4.c:917-1031 | one turn of the loop keeps the decoder where the reference decoder is, or stops with its answer |
| Lz4Decode.CopySequence | src/lz4/lz4.c:957-1030 | the half of a turn that copies literals and match, or rejects offset, length or position as the strict size does |
| Lz4Decode.ReadLiteralLength | src/lz4/lz4.c:922-935 | the bounded run-length loop finds the literal length of the format, or a length that reaches past the input, and stops where specified |
| Lz4Decode.ReadMatchLength | src/lz4/lz4.c:963-974 | the match-length loop finds the length of the format, or stops within the last 5 bytes of the input |
| Lz4Decode.CopyFromDictionary | src/lz4/lz4.c:977-1006 | a match that starts in the dictionary, crosses into the output and overlaps itself repeats at its offset in dictionary and output together |
| Lz4Decode.CopyMatchInto | src/lz4/lz4.c:977-1030 | either way of copying gives the byte-by-byte match over dictionary and output |
| Lz4Decode.Reject | src/lz4/lz4.c:938-961 | what the decoder rejects has no strict size |
| Lz4Decode.ExtensionFrom | src/lz4/lz4.c:927-932 | bytes of 255 each add 255 to the length that follows them |
| Lz4DecodeFast.DecompressGeneric | src/lz4/lz4.c:877-1042 | the unchecked decoder loop in any memory: it reads outside, rejects, or stops after so many bytes, exactly as specified, with the specified int as the answer, and then without zero offsets the output is that of the reference decoder on the bytes read |
| Lz4DecodeFast.FastReadsAtMost | src/lz4/lz4.c:917-1037 | decoding that succeeds has read at most what literals alone would have taken: no more than 2^31 - 1 bytes for an output of up to 2139095038 bytes |
| Lz4DecodeFast.ErrorIsNegativeIff | src/lz4/lz4.c:1039-1041 | the answer on a rejection is defined and negative if and only if the bytes read, modulo 2^32, are less than 2^31 |
| Lz4DecodeFast.FastEndExamples | src/lz4/lz4.c:938-1040 | the input positions at which the unchecked decoder rejects a literal run and a match, and where it stops, in concrete memories |
| Lz4DecodeFast.StrictIsFast | src/lz4/lz4.c:938-958 | a block with the strict size of the whole output is read to its end, and no further, whatever stands behind it |
| Lz4DecodeFast.DecodeSequence | src/lz4/lz4.c:917-1031 | one turn of the loop keeps the decoder where the specification and the reference decoder are, or stops with the specified answer |
| Lz4DecodeFast.CopySequence | src/lz4/lz4.c:950-1030 | the half of a turn that copies literals and match, or ends because the match begins before the output or ends too late |
| Lz4DecodeFast.FastAdvance | src/lz4/lz4.c:957-1031 | a sequence read without a check leaves the decoder where the reference decoder is on the bytes that are read in the end |
| Lz4DecodeFast.ReadUnchecked | src/lz4/lz4.c:922-932 | the run-length loop without a bound finds the length of the format, or runs out of the memory |
| Lz4Emit.PutSequence | src/lz4/lz4hc.c:571-607 | one whole sequence is written, with just the literals, offset and length given; what is written is the encoding of the input up to the end of the match; nothing 6 bytes or more behind it is touched |
| Lz4Emit.StartSequence | src/lz4/lz4.c:534-551 | token and literals of a sequence; the word-wide copy overshoots by at most a word |
| Lz4Emit.StartEmptySequence | src/lz4/lz4.c:622 | a token for a sequence without literals |
| Lz4Emit.FinishSequence | src/lz4/lz4.c:553-593 | offset and match length complete the encoding and stay below the bound |
| Lz4Emit.PutClosing | src/lz4/lz4.c:628-638 | the last literals make the output a block of the whole source, of at most n + n/255 + 16 bytes, and nothing behind it is touched |
| Lz4Emit.PutMatchLength | src/lz4/lz4.c:582-592 | the match-length loop with its pairs of 255 writes the extension bytes of the format and nothing else |
| Lz4Emit.PutRunLength | src/lz4/lz4.c:540-546 | so does the run-length loop |
| Lz4Emit.PutLiterals | src/lz4/lz4.c:534-551 | token, length and literals stand where the format has them; the overshoot is at most a word |
| Lz4Emit.PutMatch | src/lz4/lz4.c:553-593 | offset and match length of the format, the low half of the token included |
| Lz4Emit.Append | src/lz4/lz4.c:595 | a usable match after literals extends the encoding, and 255 times its size stays within 256 times the input consumed |
| Lz4Emit.SequenceSize | src/lz4/lz4.h:96 | a sequence takes at most 256/255 of the bytes it stands for |
| Lz4Emit.RoomForLiterals | src/lz4/lz4.c:549-550 | the overshoot of the literal copy ends below the bound |
| Lz4Emit.RoomForClosing | src/lz4/lz4.h:96 | the last literals end at or below the bound |
| Lz4Emit.MatchIsCopy | src/lz4/lz4.c:531-532 | a match of the source is what copying at its distance produces |
| Lz4Fast.Compress | src/lz4/lz4.c:645-663 | the block consists of the sequences of the specified parse, with 16-bit cells below 65547 bytes; it encodes the source in at most n + n/255 + 16 bytes; zero is returned exactly for a source above 0x7E000000; 14 or more equal bytes take 10 bytes and the continued length of one match; nothing at or behind the returned size is touched |
| Lz4Fast.CompressGeneric | src/lz4/lz4.c:432-642 | for either table type, the block with exactly the sequences of the specified parse; zero exactly when the source does not fit the table |
| Lz4Fast.CompressLoop | src/lz4/lz4.c:486-626 | the main loop writes the sequences of the parse, all of them, up to an anchor at least 5 bytes before the end |
| Lz4Fast.CompressStep | src/lz4/lz4.c:492-626 | one round: what it writes and what is left to parse from the table it leaves make up what was to be parsed |
| Lz4Fast.FindMatch | src/lz4/lz4.c:500-529 | finds exactly what the specified search finds, which probes with growing steps, replaces what it looks up and stops at the first position that can be used, and leaves the table as that search does |
| Lz4Fast.CatchUp | src/lz4/lz4.c:531-532 | goes back over exactly the bytes that agree, down to the anchor or the buffer start |
| Lz4Fast.EmitMatches | src/lz4/lz4.c:553-622 | writes the match and those that follow without literals, as the parse has them, and leaves the table that it goes on with |
| Lz4Fast.TestNextPosition | src/lz4/lz4.c:600-622 | leaves the table of the parse, with the position two back entered, and says what is stored for the next position and whether it can be used at once |
| Lz4Fast.MatchLength | src/lz4/lz4.c:578-579 | the length of the match in the parse: the longest there is, up to 5 bytes before the end |
| Lz4Greedy.SearchIs | src/lz4/lz4.c:500-529 | the search probes at distances of one byte 65 times, then of each byte more 64 times, and finds what the first probe finds that can be used, as long as the next probe is 12 bytes or more before the end; the table holds exactly the positions probed |
| Lz4Greedy.ParseMaximal | src/lz4/lz4.c:531-579 | every match of the parse is maximal: it ends 5 bytes before the end of the source or before a byte that differs, and behind literals it begins at the beginning or behind a byte that differs |
| Lz4Greedy.ParseOfEqual | src/lz4/lz4.c:481-626 | 14 or more equal bytes are one literal, one match at distance 1, and five literals |
| Lz4Greedy.EnteredBehind | src/lz4/lz4.c:600-622 | the position two before the end of a match has been entered: where nothing matches at the end, four bytes one behind it that are those two before it make a match at distance 3 |
| Lz4Greedy.BackLen | src/lz4/lz4.c:531-532 | going back keeps a match, which is then at least as much longer |
| Lz4Greedy.HashExamples | src/lz4/lz4.c:374-382 | the hash values of some four bytes, in tables of both kinds |
| Lz4Size.SizeOfEqual | src/lz4/lz4.c:532-642 | a block with that one match takes 10 bytes, and from 25 bytes on one more for every 255 |
| Lz4Fast.PositionFits | src/lz4/lz4.c:238 | below LZ4_64KLIMIT no position that is stored in the 16-bit table is truncated, and none in the 32-bit table below the input limit |
| Lz4Fast.PositionTable.PutOnHash | src/lz4/lz4.c:384-392 | stores the position as wide as the cell is, and changes no other cell |
| Lz4HcFinder.MatchFinder.Insert | src/lz4/lz4hc.c:383-398 | enters exactly the positions from nextToUpdate up to the given one, and keeps both tables right |
| Lz4HcFinder.HeadIsLatest | src/lz4/lz4hc.c:387-397 | after the insertion the head for a hash is the latest position that has it |
| Lz4HcChains.AllVisited | src/lz4/lz4hc.c:383-398 | as long as no repetition has been entered, every earlier position with the same hash, as many bytes back as there are attempts and at most 65535, is visited |
| Lz4HcChains.ChainedEntered | src/lz4/lz4hc.c:387-397 | entering positions keeps heads and steps leading to the latest earlier positions with the same hash |
| Lz4HcChains.CandidatesAre | src/lz4/lz4hc.c:471-481 | the walk goes back step by step, over at most so many positions, and ends sooner only where it leaves the source or the distance of a match |
| Lz4HcChains.HeadIsFree | src/lz4/lz4hc.c:457-469 | a head up to four bytes back is examined without counting as an attempt |
| Lz4HcChains.PreloadedAt | src/lz4/lz4hc.c:484-503 | behind a repetition every position it covers steps back by its distance, and the last ones are the heads of their chains |
| Lz4HcFinder.CandidatesInRange | src/lz4/lz4hc.c:471-481 | every candidate of the chain walk lies before ip, inside the buffer and at distance 1 to 65535, despite the wrapping of the chain table and the pre-loaded steps |
| Lz4HcFinder.StepKeepsLinked | src/lz4/lz4hc.c:393-395 | a step written for one position keeps the tables right for all earlier ones that still own their slot |
| Lz4HcFinder.MatchFinder.InsertAndFindBestMatch | src/lz4/lz4hc.c:442-507 | zero or the greatest match length at the candidates visited, and the first of them that has it; the tables hold the positions before ip, and after a repetition those it covers |
| Lz4HcFinder.MatchFinder.FindBestMatch | src/lz4/lz4hc.c:454-481 | the search itself: the best of the head and the candidates visited, and the repetition it detects |
| Lz4HcFinder.BestIsBest | src/lz4/lz4hc.c:471-481 | the best match is the exact capped match length at its position, no visited candidate has a longer one, and no earlier one has one as long |
| Lz4HcFinder.BestUsable | src/lz4/lz4hc.c:442-507 | it is a match of at least 4 bytes at distance 1 to 65535, and no shorter than a repetition |
| Lz4HcFinder.MatchFinder.CompleteTable | src/lz4/lz4hc.c:484-503 | the pre-load after a repetition, and that the tables stay right |
| Lz4HcFinder.PassedOver | src/lz4/lz4hc.c:474 | the one-byte test passes over no candidate with a longer match |
| Lz4HcFinder.PassedOverWide | src/lz4/lz4hc.c:526 | so does the one of the wider search |
| Lz4HcFinder.MatchLengthIsLongest | src/lz4/lz4hc.c:475-479 | the match length at a candidate is the longest there is, up to the limit |
| Lz4HcFinder.MatchFinder.InsertAndGetWiderMatch | src/lz4/lz4hc.c:510-568 | the widest match of the candidates, extended backwards to the start limit, if it is wider than the given length; the first of the widest |
| Lz4HcFinder.WidestIsWidest | src/lz4/lz4hc.c:521-565 | the widest match is a match of exactly that length that begins between the start limit and ip; none of the candidates gives a longer one, and no earlier one as long |
| Lz4HcFinder.MatchFinder.ExtendBack | src/lz4/lz4hc.c:553 | goes back over exactly the bytes that agree, down to the start limit or the buffer start |
| Lz4HcParser.CompressHC | src/lz4/lz4hc.c:611-811 | at every level the block consists of the sequences of the specified parse; four bytes that repeat as far back as there are candidates to try keep it from being the literals alone, and only repeats within 65535 do; 14 or more equal bytes take 10 bytes and the continued length of one match; it is a block of the source, of at most n + n/255 + 16 bytes, with nothing touched at or behind its size; the answer is that size if it is an int, which it is for every source of up to 2139095038 bytes and for no longer one without repeats, and negative otherwise |
| Lz4HcLaws.RepeatsAreFound | src/lz4/lz4hc.c:649-657 | four bytes that repeat as far back as there are attempts make the parse write a sequence, and nothing but repeats within 65535 do |
| Lz4HcLaws.RepeatsFoundIff | src/lz4/lz4hc.c:631 | with 65535 attempts or more a sequence is written if and only if four bytes repeat within 65535 |
| Lz4HcLaws.RunOfEqual | src/lz4/lz4hc.c:649-668 | 14 or more equal bytes are one literal, one match at distance 1, and five literals, at every level |
| Lz4HcParse.LevelsAbove16 | src/lz4/lz4hc.c:631 | above level 16 twice as many candidates are tried as at level 16, where the documentation says that nothing changes |
| Lz4HcLaws.Levels | src/lz4/lz4hc.c:631 | the number of candidates at some levels |
| Lz4HcLaws.HashExamples | src/lz4/lz4hc.c:264-265 | the hash values of some four bytes |
| Lz4HcParser.MainStep | src/lz4/lz4hc.c:649-657 | the step of the parse: the position is passed, or the best match is taken up, with the tables of the search |
| Lz4HcLaws.PassedIff | src/lz4/lz4hc.c:649-657 | a position is passed at the top of the main loop if and only if no visited candidate has the same four bytes; otherwise the first of the longest matches there is taken up |
| Lz4HcParser.Search2Step | src/lz4/lz4hc.c:659-687 | the step of the parse at Search2, in state, tables and sequences written; a sequence is written, or the end of the furthest match grows |
| Lz4HcLaws.FirstWrittenIff | src/lz4/lz4hc.c:659-668 | at Search2 the first match is written, with its literals, if and only if it ends 12 bytes or less before the end or no candidate for the position two before its end has a wider match that begins behind its first byte |
| Lz4HcParser.Search3Step | src/lz4/lz4hc.c:689-724 | the step of the parse at Search3; two sequences are written, or the end of the furthest match grows |
| Lz4HcLaws.BothWrittenIff | src/lz4/lz4hc.c:710-724 | at Search3 both matches are written if and only if the second ends 12 bytes or less before the end or no candidate for the position three before its end has a wider match that begins with it or behind |
| Lz4HcLaws.WiderIff | src/lz4/lz4hc.c:510-568 | a wider match is found if and only if a candidate has one, and it is the first of the widest |
| Lz4HcLaws.ChoiceExamples | src/lz4/lz4hc.c:670-751 | which of overlapping matches are kept, dropped, taken up again or written, in numbers |
| Lz4HcParser.ThreeMatches | src/lz4/lz4hc.c:726-795 | three overlapping matches: state and sequences are those of the parse, and all matches stay good and in order |
| Lz4HcParse.Separate | src/lz4/lz4hc.c:695-708 | the first correction keeps where the second match ends, its distance, and at least 4 bytes of both |
| Lz4HcLaws.SeparateIs | src/lz4/lz4hc.c:695-708 | the second match begins where the first, cut to 18 bytes, ends, unless it begins later or less than four bytes would be left of it |
| Lz4HcParse.Disjoin | src/lz4/lz4hc.c:765-784 | the second correction makes the two matches disjoint and keeps at least 4 bytes of both |
| Lz4HcLaws.DisjoinIs | src/lz4/lz4hc.c:765-784 | overlapping matches 15 bytes or more apart: the first is cut to the gap; nearer ones: it is cut to 18 bytes, with four left for the second, which gives up the rest |
| Lz4HcParse.Remainder | src/lz4/lz4hc.c:730-751 | what is left of the middle match begins behind the first one |
| Lz4HcLaws.RemainderIs | src/lz4/lz4hc.c:733-745 | the middle match is kept, or its end if that has four bytes, or the third one takes its place |
| Lz4HcParse.SeparateIsGood | src/lz4/lz4hc.c:695-708 | a corrected match is a match: length at least 4, distance 1 to 65535, equal bytes, clear of the end |
| Lz4HcParse.DisjoinIsGood | src/lz4/lz4hc.c:765-784 | so are both matches of the second correction |
| Lz4HcParser.Encode | src/lz4/lz4hc.c:571-607 | a good match at or behind the anchor is written, with the literals in front of it |
| Lz4HcParser.WriteBoth | src/lz4/lz4hc.c:715-724 | two matches are written one after the other, the first shortened if it must be, as the parse has it |
| IlJumps.JumpSound | src/rdx/rdx_ilcomp.cpp:968-988 | for an accepted jump to anything but an EndBarrier, the operands expected at the target are a prefix of those left at the jump, and so are the locals, without the one that the target removes |
| IlJumps.JumpToEndBarrierIff | src/rdx/rdx_ilcomp.cpp:1198-1206 | at an EndBarrier the expected operands are a prefix of those at the jump if and only if the jump lies between the StartBarrier and the EndBarrier |
| IlJumps.ReturnReachesBarrier | src/rdx/rdx_ilcomp.cpp:3328-3341 | the scan of a return past a barrier finds the EndBarrier of that very barrier, where exactly the remaining operands and locals are expected |
| IlJumps.LocalReaches | src/rdx/rdx_ilcomp.cpp:2124-2134 | a local alive at the target and not removed there is alive, at the same index over the same locals, at every jump in range |
| IlJumps.BarrierReaches | src/rdx/rdx_ilcomp.cpp:1198-1206 | a barrier on top at the target is there for every jump in range, over the same operands |
| IlJumps.BarriersStep | src/rdx/rdx_ilcomp.cpp:1159-1226 | the number of barriers on the stack follows the nesting of the code |
| IlJumps.LocalsFrozen | src/rdx/rdx_ilcomp.cpp:2030-2136 | while a barrier is on the stack no local is added or removed |
| IlRuns.RunsKeepShape | src/rdx/rdx_ilcomp.cpp:1101-3815 | in every state of a run of an accepted method, up to and at the first stray jump, the stacks are those the single linear pass computed for that instruction |
| IlRuns.RunsSoundIff | src/rdx/rdx_ilcomp.cpp:968-988 | in an accepted method every state that a run can come to has the computed stacks, and its jump lands on the computed stacks, if and only if no run comes to a stray jump |
| IlRuns.SoundIff | src/rdx/rdx_ilcomp.cpp:1198-1206 | a jump from a state in shape lands in shape if and only if it is no stray jump |
| IlRuns.NoStrayJumpsSound | src/rdx/rdx_ilcomp.cpp:1198-1206 | a method in whose code no jump is a stray one is sound in every run |
| IlWritten.RunsWrittenIff | src/rdx/rdx_ilcomp.cpp:1198-1226 | in an accepted method every state that a run can come to is sound with all its values written, if and only if no run comes to a written jump to an EndBarrier, as opposed to a return |
| IlWritten.NoBarrierJumpsRight | src/rdx/rdx_ilcomp.cpp:1198-1226 | so is every run of a method in whose code no jump goes to an EndBarrier |
| IlWritten.TrackedInMarks | src/rdx/rdx_ilcomp.cpp:1101-3815 | up to and at the first such jump all values have been written, and no shells but those that a return has just written |
| IlWritten.JumpLeavesUnwritten | src/rdx/rdx_ilcomp.cpp:1208-1219 | such a jump from inside its barrier can be taken, and the EndBarrier behind it makes a value of a shell that nobody has written |
| IlWritten.MarksReturn | src/rdx/rdx_ilcomp.cpp:3344-3420 | a return past a barrier leaves just the shells written that the barrier guards |
| IlWritten.EveryRunTracked | src/rdx/rdx_ilcomp.cpp:1101-3815 | every run is one for which it can be told what has been written |
| IlTypes.NoStrayJumpsSafe | src/rdx/rdx_ilcomp.cpp:1101-3815 | type safety: in an accepted method without stray jumps, in every state that a run can come to, every value stored in an operand or a local is of a type from which allowed conversions, each in its direction, lead to the type the compiler assigned there; the condition of a jump so leads to the boolean type, and what is returned to the declared results |
| IlTypes.RunsKeepTypes | src/rdx/rdx_ilcomp.cpp:1101-3815 | the same for every run up to and at its first stray jump, where a move stores the type of what it reads, Load reads it back, a return takes it past the barrier, and a landing jump drops what is above |
| IlTypes.ValuesHaveTypes | src/rdx/rdx_ilcomp.cpp:1101-3815 | up to and at the first written jump to an EndBarrier every value and every local is there, with a type that so leads to the assigned one |
| IlTypes.StepTyped | src/rdx/rdx_ilcomp.cpp:1101-3815 | every instruction, whichever it is, keeps what is stored in order with what the linear pass assigns, references to locals included |
| IlTypes.MoveTyped | src/rdx/rdx_ilcomp.cpp:2761-2891 | a move checks the conversion from its source to its destination, in this direction |
| IlTypes.ReturnTyped | src/rdx/rdx_ilcomp.cpp:3344-3420 | so does a return past a barrier, from each value to its shell |
| IlTypes.ConditionsAreBool | src/rdx/rdx_ilcomp.cpp:1522-1565 | what a conditional jump looks at has a type that leads to the boolean one |
| IlTypes.ResultsFit | src/rdx/rdx_ilcomp.cpp:3220-3316 | what is returned to the caller fits the declared results, one by one |
| IlTypes.ConstantsFit | src/rdx/rdx_ilcomp.cpp:3512-3595 | a method that gets through the pass loads only constants that their type admits |
| IlTypes.ReachesAtOnce | src/rdx/rdx_ilcomp.cpp:2771-2772 | where conversions compose, one is enough |
| IlTypes.EveryRunTyped | src/rdx/rdx_ilcomp.cpp:1101-3815 | every run is one for which it can be told of what types the stored values are |
| IlRules.TakenIff | src/rdx/rdx_ilcomp.cpp:1101-3815 | an instruction is taken by the linear pass if and only if its rule holds: what must be on the stacks, of which kinds and types, and that there is room |
| IlRules.PastBarrierIff | src/rdx/rdx_ilcomp.cpp:3324-3420 | a return past a barrier is taken if and only if each of its values fits the shell as far below the barrier |
| IlConversions.ConvertingCompiles | src/rdx/rdx_ilcomp.cpp:4103-4184 | with a conversion from type 1 to type 2 and no other, a concrete method that moves, loads, branches and returns across it compiles to a local area of 16 bytes and a frame of 32 |
| IlConversions.ExchangedIsRejected | src/rdx/rdx_ilcomp.cpp:2771-2772 | with the two types exchanged in its code it is rejected as an incompatible conversion |
| IlRuns.NeverStuck | src/rdx/rdx_ilcomp.cpp:968-988 | a run never gets stuck at an instruction that is no stray jump |
| IlRuns.TargetMet | src/rdx/rdx_ilcomp.cpp:968-988 | every jump but a stray one finds what its target expects on both stacks |
| IlExamples.StrayJumpAccepted | src/rdx/rdx_ilcomp.cpp:1198-1206 | a concrete method all of whose jumps are accepted although the last one reaches an EndBarrier without the operands expected there |
| IlExamples.StrayJumpReached | src/rdx/rdx_ilcomp.cpp:1198-1206 | a run of that method comes to that jump, which cannot land on the expected operands |
| IlExamples.StrayJumpCompiles | src/rdx/rdx_ilcomp.cpp:4103-4184 | all passes of the compiler accept it |
| IlExamples.JumpInsideUnwritten | src/rdx/rdx_ilcomp.cpp:1198-1226 | a concrete method that is accepted, without stray jumps and sound in every run, has a run that makes a value of an unwritten shell |
| IlExamples.FrameTooSmall | src/rdx/rdx_ilcomp.cpp:4178-4184 | a concrete method that compiles to a frame of no bytes although its local takes eight |
| IlExamples.JumpToAllocation | src/rdx/rdx_ilcomp.cpp:2127-2133 | a jump back to the instruction that makes a local, from behind the one that removes it, is accepted |
| IlLinear.BarrierSurvives | src/rdx/rdx_ilcomp.cpp:1188-1219 | a barrier and everything below it stay as they are until an EndBarrier has it on top |
| IlLinear.GuardedShells | src/rdx/rdx_ilcomp.cpp:1193-1219 | right below the barrier that an EndBarrier removes are the shells it guards |
| IlLinear.StartBarrierShells | src/rdx/rdx_ilcomp.cpp:1161-1176 | in every method that gets through the pass, each StartBarrier stands over as many shells as it guards |
| IlLinear.BarrierSince | src/rdx/rdx_ilcomp.cpp:1159-1186 | since its StartBarrier a barrier has been where it is |
| IlLinear.LocalSince | src/rdx/rdx_ilcomp.cpp:2030-2136 | since its creation a local has been where it is |
| IlLinear.LocalEnds | src/rdx/rdx_ilcomp.cpp:3819-3820 | every local lives until a RemoveLocal that has it on top |
| IlLinear.BarrierEnds | src/rdx/rdx_ilcomp.cpp:3819-3820 | every barrier lives until an EndBarrier that has it on top |
| IlLinear.MatchingEnd | src/rdx/rdx_ilcomp.cpp:3328-3341 | the scan for the matching EndBarrier stays inside the code |
| IlStacks.PushOperand | src/rdx/rdx_ilcomp.cpp:599-653 | an operand goes directly below the one before it, or below the local area, padded; it fails exactly when the operand cannot be aligned or its size or offset overflows |
| IlStacks.OperandSize | src/rdx/rdx_ilcomp.cpp:550-597 | values and shells take their size rounded up to the operand boundary and must not need more alignment; other operands take nothing |
| IlStacks.PushLocal | src/rdx/rdx_ilcomp.cpp:781-878 | a local goes below the one before it, at the least aligned offset; it fails exactly when the alignment, or twice the end with the alignment, exceeds the signed range |
| IlStacks.ExecReturn | src/rdx/rdx_ilcomp.cpp:3324-3420 | a return past a barrier is right exactly if the barrier guards as many shells as there are values and every value can be returned and is compatible with its shell; the barrier stays on top |
| IlStacks.ExecExit | src/rdx/rdx_ilcomp.cpp:3217-3322 | a return to the caller is right exactly if there are as many operands as declared results, each can be returned and is compatible with its result, and the results can be placed in the frame of the caller |
| IlStacks.PadTo | src/rdx/rdx_ilcomp.cpp:585-590 | padding is the least multiple of the alignment that is large enough |
| IlRanges.MetasAdmitIff | src/rdx/rdx_ilcomp.cpp:1112-1121 | after a pass the range and flag written down for an instruction admit exactly the jumps that every removal lets through |
| IlRanges.Settles | src/rdx/rdx_ilcomp.cpp:4162-4169 | the stitching pass narrows no range any further |
| IlRanges.TargetsAt | src/rdx/rdx_ilcomp.cpp:1118-1121 | an instruction is marked as a jump target exactly if the operands before it are none or end in a barrier |
| IlFrame.LaterPass | src/rdx/rdx_ilcomp.cpp:4126-4160 | a pass begun with a local area that holds all locals keeps it, and computes the stacks of the program with operands placed below that area |
| IlFrame.StepOpsLayout | src/rdx/rdx_ilcomp.cpp:599-653 | every instruction keeps live operands disjoint and below the local area, and the operand maximum up to date |
| IlFrame.StepLocalsLayout | src/rdx/rdx_ilcomp.cpp:781-878 | every instruction keeps live locals disjoint, aligned and inside the area |
| IlFrame.SameLocals | src/rdx/rdx_ilcomp.cpp:781-878 | where locals lie does not depend on where operands are |
| IlFrame.PushCovers | src/rdx/rdx_ilcomp.cpp:609-626 | after any push the operand maximum covers the local area |
| IlFrame.NoPushes | src/rdx/rdx_ilcomp.cpp:624-626 | without a push it stays what it was |
| IlMethod.FrameLaidOut | src/rdx/rdx_ilcomp.cpp:4110-4184 | before every instruction of a compiled method the locals lie disjoint and aligned in the local area, the operands disjoint below it, and the operands within frameCapacity; area and capacity are multiples of their alignments |
| IlMethod.RunsLaidOut | src/rdx/rdx_ilcomp.cpp:4110-4184 | so it is in every state of a run, up to and at the first stray jump |
| IlMethod.FrameCoversLocalsIff | src/rdx/rdx_ilcomp.cpp:4178-4184 | frameCapacity covers the locals if and only if the method pushes an operand somewhere or none of its locals has any bytes |
| IlTight.FrameIsTight | src/rdx/rdx_ilcomp.cpp:4178-4184 | frameCapacity is a multiple of 16, and less than 16 bytes above the depth of the deepest operand of the method |
| IlTight.LaterIsDeeper | src/rdx/rdx_ilcomp.cpp:4110-4169 | a pass that places operands below a larger local area places the same ones, none of them less deep |
| IlMethod.LargestLocal | src/rdx/rdx_ilcomp.cpp:4110-4111 | what the counting pass leaves in the local maximum: at least the size of every local |
| IlCompiler.PassCompiler.CreateStacks | src/rdx/rdx_ilcomp.cpp:4110-4114 | the counting pass fails exactly as specified; otherwise the maxima of the stacks, of their journal and of the local offset are those specified, the last being the largest local |
| IlCompiler.PassCompiler.CountInstr | src/rdx/rdx_ilcomp.cpp:1101-3815 | one instruction of the counting pass: its effect on the counts and maxima, or failure exactly when it is not allowed |
| IlCompiler.PassCompiler.CountLocal | src/rdx/rdx_ilcomp.cpp:816-861 | a local of the counting pass, whose offset is that of an only local, with the overflow checks |
| IlCounting.CountsAgree | src/rdx/rdx_ilcomp.cpp:1101-3815 | as far as a pass with types gets, so far does the counting pass, with the same heights of both stacks |
| IlCounting.CountingLoses | src/rdx/rdx_ilcomp.cpp:4110-4114 | the counting pass refuses no method that the pass after it would let through |
| IlCounting.PushesFit | src/rdx/rdx_ilcomp.cpp:308-318 | no later pass pushes beyond the lists made from the counted maxima, not even in an instruction that fails after its push |
| IlCounting.CountsReach | src/rdx/rdx_ilcomp.cpp:308-318 | the maxima cover the heights before every instruction |
| IlMethod.BecomesStitchable | src/rdx/rdx_ilcomp.cpp:4126-4169 | after the pass over the rounded local area the ranges are complete and the area stays as it is |
| IlPasses.ClearIff | src/rdx/rdx_ilcomp.cpp:968-988 | what is written down decides exactly whether the jump of the current instruction is accepted |
| IlPasses.NothingNew | src/rdx/rdx_ilcomp.cpp:4162-4169 | going over an instruction once more changes nothing that is written down about it or others |
| IlCompiler.CompileMethod | src/rdx/rdx_ilcomp.cpp:4103-4184 | succeeds on exactly the methods that the specification of the passes accepts, with its local area and frame capacity |
| IlCompiler.PassCompiler.CompilePass | src/rdx/rdx_ilcomp.cpp:1024-3835 | one pass: it succeeds exactly if the linear pass does and, while stitching, every jump is accepted; offset maxima and ranges are those specified |
| IlCompiler.PassCompiler.CompileNext | src/rdx/rdx_ilcomp.cpp:1101-3815 | one instruction keeps the pass where it should be, or the pass cannot be completed |
| IlCompiler.PassCompiler.AppendOpstack | src/rdx/rdx_ilcomp.cpp:599-653 | the new operand stack and offset maximum, or the error, of the specification; the entry is written inside the list |
| IlCompiler.PassCompiler.PopOpstack | src/rdx/rdx_ilcomp.cpp:734-779 | drops the top entry and answers it; fails on an empty stack or another kind |
| IlCompiler.PassCompiler.AppendLocal | src/rdx/rdx_ilcomp.cpp:781-878 | the new locals and offset maximum, or the error, of the specification |
| IlCompiler.PassCompiler.PopLocal | src/rdx/rdx_ilcomp.cpp:880-918 | drops the last local and answers it; fails when there is none |
| IlCompiler.PassCompiler.StitchJump | src/rdx/rdx_ilcomp.cpp:968-988 | accepts a target exactly if it exists and admits the instruction; always before the stitching pass |
| IlCompiler.PassCompiler.NarrowJumpRanges | src/rdx/rdx_ilcomp.cpp:2127-2133 | narrows the ranges of the instructions in between, and no others |
| IlCompiler.PassCompiler.MarkTarget | src/rdx/rdx_ilcomp.cpp:1106-1122 | resets the range, unless stitching, and notes whether the instruction may be jumped to |
| IlCompiler.PassCompiler.FindEndBarrier | src/rdx/rdx_ilcomp.cpp:3328-3341 | finds what the matching scan specifies |
| IlCompiler.PassCompiler.DecodeLabel | src/rdx/rdx_ilcomp.cpp:182-197 | the target of a label, or an error outside the code |
| IlCompiler.PassCompiler.CompileAllocLocal | src/rdx/rdx_ilcomp.cpp:2030-2075 | the step of this instruction, or failure exactly when it is not allowed |
| IlCompiler.PassCompiler.CompileCreateLocal | src/rdx/rdx_ilcomp.cpp:2076-2112 | the step of this instruction, or failure exactly when it is not allowed; a value of the very type becomes the local |
| IlCompiler.PassCompiler.CompileRemoveLocal | src/rdx/rdx_ilcomp.cpp:2113-2136 | the step of this instruction, and the ranges of the instructions while the local existed |
| IlCompiler.PassCompiler.CompileStartBarrier | src/rdx/rdx_ilcomp.cpp:1159-1187 | the step of this instruction, or failure exactly when fewer values are there than it guards |
| IlCompiler.PassCompiler.CompileEndBarrier | src/rdx/rdx_ilcomp.cpp:1188-1226 | the step of this instruction: the guarded shells become values, and the ranges since the StartBarrier are narrowed |
| IlCompiler.PassCompiler.LivenShells | src/rdx/rdx_ilcomp.cpp:1208-1219 | turns the shells among the guarded entries into values; fails when there are fewer entries |
| IlCompiler.PassCompiler.CompileReturn | src/rdx/rdx_ilcomp.cpp:3203-3442 | the step of this instruction, to the caller or past a barrier, or failure exactly when it is not allowed |
| IlCompiler.PassCompiler.CompileBarrierReturn | src/rdx/rdx_ilcomp.cpp:3344-3420 | succeeds exactly if every value fits its shell, and leaves the barrier on top |
| IlCompiler.PassCompiler.CompileExit | src/rdx/rdx_ilcomp.cpp:3220-3316 | succeeds exactly if all operands can be returned as the declared results and those can be placed in the frame of the caller |
| IlCompiler.PassCompiler.CompileJump | src/rdx/rdx_ilcomp.cpp:1399-1431 | succeeds exactly with no operands or a barrier on top and an admitted target |
| IlCompiler.PassCompiler.CompileConditionalJump | src/rdx/rdx_ilcomp.cpp:1522-1565 | takes a boolean value; then as an unconditional jump |
| IlCompiler.PassCompiler.CompileLoad | src/rdx/rdx_ilcomp.cpp:2976-3105 | a local reference becomes a value of the type of the local |
| IlCompiler.PassCompiler.CompileMove | src/rdx/rdx_ilcomp.cpp:2761-2891 | takes a source and a reference to a local, if the type of the source converts to that of the local |
| IlCompiler.PassCompiler.CompilePop | src/rdx/rdx_ilcomp.cpp:3106-3132 | drops anything but a barrier |
| IlCompiler.PassCompiler.CompileConstant | src/rdx/rdx_ilcomp.cpp:3512-3595 | pushes a value of a type that has constants, if the constant is in the range of the type and, for an enumeration, one of its enumerants |
| IlCompiler.PassCompiler.CompileLocalRef | src/rdx/rdx_ilcomp.cpp:3186-3202 | pushes a reference to an existing local |
| IlCompiler.PassCompiler.CompilePushEmpty | src/rdx/rdx_ilcomp.cpp:2137-2150 | pushes a shell of the type |
| HashMap.HashTable.FindElementIndex | src/rdx/rdx_hashmap.hpp:172-217 | finds a key exactly if the map has it, also when no slot is empty; else, with room left, a slot where it may be inserted |
| HashMap.HashTable.Insert | src/rdx/rdx_hashmap.hpp:370-432 | the abstract map gets the key with the value, whether new or replaced; the array doubles, or gets its first slot, exactly if four fifths of it are in use, and otherwise just one slot changes: that of the key, or the first of its probe sequence that is not filled |
| HashMap.HashTable.MakeRoom | src/rdx/rdx_hashmap.hpp:381-398 | the abstract map stays; the array doubles, or gets its first slot, exactly if four fifths of it are in use |
| HashMap.HashTable.RemoveEntry | src/rdx/rdx_hashmap.hpp:236-256 | the abstract map loses the key of a filled slot, and nothing else; that slot becomes a deleted one, and no other slot changes |
| HashMap.HashTable.Balance | src/rdx/rdx_hashmap.hpp:258-273 | the abstract map stays; the array is halved exactly if it holds more than 8 items and less than two fifths of it are in use, and otherwise nothing changes |
| HashMap.HashTable.EnlargeEntryArray | src/rdx/rdx_hashmap.hpp:340-368 | the old entries stay in front, the new ones are empty |
| HashMap.HashTable.Rehash | src/rdx/rdx_hashmap.hpp:441-479 | in place, for growing and for shrinking: it ends, keeps the multiset of items, leaves no loose or deleted slot and nothing filled at or beyond the new count, and every entry is reachable from its new home without an empty slot in between |
| HashMap.Settle | src/rdx/rdx_hashmap.hpp:461-477 | one slot: its loose entry is moved on until the slot is settled, all items kept |
| HashMap.Unfilled | src/rdx/rdx_hashmap.hpp:467-473 | the probe for a slot that is not filled ends, and all slots before it are filled |
| HashMap.PlacedRehashing | src/rdx/rdx_hashmap.hpp:475-476 | marking an entry and swapping it to its destination keeps what the rehash needs |
| HashMap.PlacedItems | src/rdx/rdx_hashmap.hpp:475-476 | it also keeps the items, with one loose item less |
| HashMap.KeyIsHeld | src/rdx/rdx_hashmap.hpp:172-217 | every key of the map is in a slot reachable from its home |
| HashMap.HeldIsKey | src/rdx/rdx_hashmap.hpp:172-217 | every filled slot holds a pair of the map with the right hash |
| HashMap.KeysAreUnique | src/rdx/rdx_hashmap.hpp:172-217 | no two filled slots hold the same key |
| HashMap.SizeOfMap | src/rdx/rdx_hashmap.hpp:252-254 | the number of items, which is `load`, is the size of the map |
| HashMap.NotYetFound | src/rdx/rdx_hashmap.hpp:187-215 | a probe that ran into an empty slot, or all around, without the key proves it absent |
| HashMap.AddedKeeps | src/rdx/rdx_hashmap.hpp:401-424 | filling the slot that was found keeps the representation, with the pair added |
| HashMap.RemovedKeeps | src/rdx/rdx_hashmap.hpp:247-254 | leaving a deleted slot behind keeps every other entry reachable |
| Journal.RecordRoundTrip | src/rdx/rdx_ilcomp.hpp:256-319 | a compressed record is restored whole, with exactly the bytes written consumed, if and only if its signed fields are in -2^62 .. 2^62 - 1; beyond, the sign-extending shift is not defined |
| Journal.BufferRoundTrip | src/rdx/rdx_ilcomp.hpp:256-319 | the same for what Compress leaves in a buffer |
| Journal.RecordExample | src/rdx/rdx_ilcomp.hpp:130-287 | some integers, flags and a record, in bytes |
| Journal.UIntRoundTrip | src/rdx/rdx_ilcomp.hpp:160-236 | every unsigned 64-bit value is read back, with exactly the bytes written |
| Journal.SIntRoundTrip | src/rdx/rdx_ilcomp.hpp:130-214 | a signed value is read back exactly if it is in -2^62 .. 2^62 - 1 |
| Journal.SignExtendMeans | src/rdx/rdx_ilcomp.hpp:205-211 | shifting up and down again is sign extension |
| Journal.FlagsRoundTrip | src/rdx/rdx_ilcomp.hpp:275-316 | the seven flags come back from their bits |
| Journal.StackJournal.Compress | src/rdx/rdx_ilcomp.hpp:256-287 | writes the bytes of the record at the cursor and nothing else; without a buffer it returns the same count |
| Journal.StackJournal.Decompress | src/rdx/rdx_ilcomp.hpp:289-319 | assigns every field as read, and says how many bytes that took |
| Journal.PushSInt | src/rdx/rdx_ilcomp.hpp:130-158 | writes the groups of a signed integer, or only counts them |
| Journal.PushUInt | src/rdx/rdx_ilcomp.hpp:160-187 | writes the groups of an unsigned integer, or only counts them |
| Journal.PopSInt | src/rdx/rdx_ilcomp.hpp:189-214 | reads what the format says, advancing by as much |
| Journal.PopUInt | src/rdx/rdx_ilcomp.hpp:216-236 | reads what the format says, advancing by as much |
| Journal.PushRef | src/rdx/rdx_ilcomp.hpp:108-117 | writes the bytes of a handle |
| Journal.PopRef | src/rdx/rdx_ilcomp.hpp:119-128 | reads the bytes of a handle |
| Journal.SIntSize | src/rdx/rdx_ilcomp.hpp:130-158 | a value that fits 7n bits as a signed number takes at most n groups |
| NumberText.IntRoundTrip | src/rdx/rdx_constants.cpp:26-83 | what is printed is parsed back in every integer type that holds the value, the most negative one included, with no intermediate overflow; in a type that does not hold it the result is wrapped around, or an overflow where that is undefined; parsing stops right behind it |
| NumberText.DigitsReadBack | src/rdx/rdx_constants.cpp:37-45 | reading digits in either direction of growth passes only through prefixes of the number, and so overflows only if the number does not fit; where the type wraps around the result is the number modulo its size |
| NumberText.WrapAgain | src/rdx/rdx_constants.cpp:37-45 | wrapping around at every digit is wrapping around once |
| NumberText.IntToString | src/rdx/rdx_constants.cpp:50-83 | writes sign, digits and terminator, and nothing else |
| NumberText.PushDigits | src/rdx/rdx_constants.cpp:65-72 | the digits, last one first, for negative numbers too; the 50 places there are enough |
| NumberText.AToLL | src/rdx/rdx_constants.cpp:26-48 | the value, wrapped around where the type does, and the end of the digits; None exactly where an intermediate result of a type that must not overflow does |
| FloatText.TextRoundTrip | src/rdx/rdx_constants.cpp:289-352 | every binary32 pattern and every binary64 pattern but +0 comes back from its text; the text of the binary64 +0 never decodes |
| FloatText.BitsRoundTrip | src/rdx/rdx_constants.cpp:113-242 | decomposing and recomposing restores every bit pattern, except +0 where there is no case for zero |
| FloatText.LoopEndsIff | src/rdx/rdx_constants.cpp:230-234 | the shifting loop of recomposing ends if and only if one of the bits up to the hidden one is set |
| FloatText.TextIsValueIff | src/rdx/rdx_constants.cpp:128-139 | with the exponent bias of section 3.4 of IEEE 754-2008, the text of a finite binary32 or binary64 number denotes its value if and only if it is +0 or a normal number; for -0 and subnormals the code counts a hidden bit they do not have |
| FloatValue.ValueDecodesIff | src/rdx/rdx_constants.cpp:146-242 | a text of the value of a normal number, however written, is read as that number if and only if its fraction has at most one bit more than the format has fraction bits |
| FloatText.UnitIsBias | src/rdx/rdx_constants.cpp:139 | 150 and 1075 are the exponent bias of the standard and the number of fraction bits |
| FloatValue.NumberExamples | src/rdx/rdx_constants.cpp:113-144 | the texts of 1, -5 and 0.5 in binary32 and of 1 in binary64 |
| FloatText.LiftStrip | src/rdx/rdx_constants.cpp:133-170 | shifting up undoes making odd |
| FloatText.DecompositionFits | src/rdx/rdx_constants.cpp:113-144 | fraction and exponent fit the integer types that hold them |
| FloatText.ParsesBack | src/rdx/rdx_constants.cpp:85-111 | fraction and exponent are parsed back from their text, with and without an exponent |
| FloatText.Decompose | src/rdx/rdx_constants.cpp:113-144 | the loop computes the specified odd fraction and exponent |
| FloatText.Recompose | src/rdx/rdx_constants.cpp:146-242 | the specified bit pattern; None exactly if the exponent overflows, a shift is not defined, or the loop never ends |
| FloatText.StrippedShifts | src/rdx/rdx_constants.cpp:167-174 | recomposing what decomposing has made odd needs no shift that is not defined |
| FloatText.ShiftUp | src/rdx/rdx_constants.cpp:167-171 | the shifting loop ends if there is a bit to shift into place, with the specified fraction and exponent; what is shifted out is lost |
| FloatText.DecomposedToString | src/rdx/rdx_constants.cpp:85-97 | writes fraction, exponent if not zero, and terminator |
| FloatText.DecomposeString | src/rdx/rdx_constants.cpp:99-111 | reads them back as specified |
| FloatText.EncodeString | src/rdx/rdx_constants.cpp:339-352 | the text of the odd fraction and the exponent of the bit pattern |
| FloatText.DecodeString | src/rdx/rdx_constants.cpp:289-302 | the bit pattern of any text; None exactly if an integer in it overflows, a shift of recomposing is not defined, or its loop never ends |

## Left out

- Lz4HcParser.CompressHC: always begins with a fresh context, as LZ4_compressHC2 does; a context that has already been used belongs to streaming. What a processor makes of the shift by a negative level is a parameter.
- Lz4Size.AsInt: converting a size that is no int, which the language leaves to the implementation, is taken to keep the low 32 bits.
- Lz4Decode.DecompressGeneric: partial decoding is not modelled.
- NumberText.AToLL: converting to a narrow signed type, which the language leaves to the implementation, is taken to wrap around.
- Journal.PopSInt: answers None for a tenth group; what a particular processor makes of the undefined shift is not modelled.
- IlCompiler.CompileMethod: which error is reported where several apply is not stated.
- The limited-output directives of both compressors, streaming compression with dictionaries, obsolete wrappers, and the 32-bit and big-endian variants of LZ4: configuration breadth.
- The processor-specific ways of finding the first differing byte (`LZ4_NbCommonBytes`): taken as the index of that byte.
- The address arithmetic of `GETNEXT` and `DELTANEXT` beyond the low 16 bits of an address: the buffer address is a parameter.
- Opcodes of the IL compiler other than the fifteen modelled: calls, exceptions, casts, arrays, properties, switches and iteration.
- Pointers, reference structures and varyings as operands, and the offsets of parameters, which live in the caller's frame.
- The instructions that the IL compiler emits, its debug information, its resume flags and the journal it builds.
- The size and compatibility of types, which the object manager answers: arbitrary functions.
- Packing several journal records one after the other (`rdxCompactJournals`).
- Allocation failure and the exception macros: an early error result stands for an exception, and allocation succeeds.
- The rebalance that key construction may trigger inside Insert (`src/rdx/rdx_hashmap.hpp:407-415`): it needs the garbage collector.
- The interpreter, decompiler, generated code, object manager, garbage collector and the remaining plumbing of the runtime: no claim is made about them.
