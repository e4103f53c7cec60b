# Verification of the wasrisc runtime support

This project models the parts of wasrisc that move, lay out and encode bytes, and proves what they promise.

**Memory routines** (`Words`, `Machine`, `MemSpec`, `Forward`, `Backward`, `Fill`). The RV64 routines `_memset`,
`_memcpy`, `_memcpy_r` and `_memmove` of `w2c2/embedded/memops.S`, in the configuration the builds use: 8-byte
registers, little-endian, no compressed instructions, unrolled and unaligned loops enabled. Memory is a byte array held
by a `Hart`, registers are local variables, data words are `bv64`. A word access has an aligned address inside memory as
its precondition, so alignment and bounds of every access are proved where it happens. Do-while loops are loops that
test at the end, and their methods require that at least one full step is left. The `Hart` also meters the stores and
the span of addresses loaded. Every routine is proved against byte-level specifications (`MemSpec.Copied`,
`MemSpec.Filled`; sections 7.24.2 and 7.24.6.1 of ISO C11), with its exact number of stores and exact load span. The
callee-saved registers s0 and s1 go in and come out unchanged. The unrolled loops are written as their repeated group of
instructions; the jump into the 32 stores of `_memset` is a computed instruction address.

`_memcpy` is documented for buffers that do not overlap; `_memmove` hands it overlapping ones with dst <= src. The proof
covers both. `_memcpy` can load up to 15 bytes past the end of the source, a whole word the source does not touch in the
cases `MemSpec.UpOverread` lists; memory must therefore reach up to `MemSpec.UpLoadHi`, which is the exact bound.

**Heap** (`Memlib`, `HeapRuns`, `HeapZeroing`, `HeapReference`, `HeapCopies`). The allocator of `w2c2/embedded/memlib.c`
with its real constants and wrapping `size_t` arithmetic (the part of the sum that is 32-bit unsigned never wraps,
`Memlib.UnsignedPartFits`), and the `memset` wrapper that skips large zero fills. `S` stands for `sizeof(wasmMemory)`.
`HeapRuns` is a state machine over client calls and stores, in any order and with blocks allocated again, grown and
shrunk at will. Its requests must not wrap `size_t`, struct requests must be for one struct and table requests stay
below the reserve; `Memlib.SizeOkExact`, `StructReserveExact`, `TableReserveExact` and `TableReallocExact` say exactly
what these bounds protect. Then the last blocks granted of each kind are always disjoint and inside the heap; two
nonempty requests for data always overlap. That neither the missing zeroing in `calloc` nor the skipped fills can be
seen needs more: `HeapZeroing.TidyExact` says the heap outside the live blocks stays zero exactly as long as no call
takes a nonzero byte from the client. A client that allocates each kind once and only grows never does that, and one
that stores nothing past the size it keeps does not either; `DirtyRegrowth` and `DirtyReallocation` are runs where a
client did, and `CallocIsZeroed` and `RegrownFillExact` give the exact condition for a block allocated again and for
data shrunk and grown again. `HeapReference.RunRefines` ties this together: over a whole run memory is what a zeroing
`calloc` and an always filling `memset` leave, after every call, exactly if each granted `calloc` and each skipped fill
of the run finds zeros, and `FirstUseRefines` gives a discipline that sees to it. The heap ends where RAM ends, which
meets the over-read of `_memcpy`: `HeapCopies.CopyPastRamExact` says exactly when an ascending copy loads past the end
of RAM, and `TableCopyPastRam` is a run in which a client can issue one.

**Codec and framed reader** (`LittleEndian`, `GoValues`, `GoMemory`, `Serialize`, `Deserialize`, `WireFormat`,
`WireLaws`, `CodecLaws`, `SharedPointers`, `WitnessReader`). The reflective encoder and decoder of
`examples/go/stateless/serialization` over a type universe and values, and the reader with the moving offset of
`examples/go/stateless/main.go`. The destination of the decoder is a variable in a memory of typed cells, whose pointers
may share targets or point into one another. `Enc` and `DecIn` say what the loops compute, including errors, panics and
what is partly written; `Dec` is the same on values, and `SharedPointers.UnsharedRefines` proves that the two agree
wherever no cell is reached twice. What is on the wire is said without either of them: `WireFormat.Wire` relates a value
to its bytes, with every word written out. `WireLaws.EncOnWire` proves the encoder makes exactly these bytes, and
`DecExact` that the decoder yields a value exactly if the bytes stand for it and the destination has the pointers it
needs; it also takes what the encoder never makes, such as arrays of any element. `SharedPointers.DecodesExact` says for
every destination, shared or not, exactly which values survive. A panic counts as a failure. Where the code means to
return an error but panics while formatting it (a slice or array of anything but `uint8`, serialize.go:74 and 83,
deserialize.go:94), the model panics. Slices have capacity equal to their length; `int` is 64 bits wide and its
wrap-around is written out.

**Import rewriter** (`WatImports`, `WatFile`, `WatLaws`), **byte-array printer** (`File2c`), **gather-write**
(`FdWrite`). The line rewriter and the file scan of `dotnet2wasm.go`, on files of any bytes, with `WatLaws.RewriteExact`
and `FileRewritten` saying for every line and every file what comes out; the printer of `file2c.c` against an
independent reader of the C source it prints; and `fd_write` of `wasi.c`, against the ciovecs as they lie in memory.

## Model

| member | source | states |
|---|---|---|
| `Words.ShiftMerge` | w2c2/embedded/memops.S:383-390 | the shift pair by 8t and -8t combined with or gives the word at byte t of two neighbouring words |
| `Words.MergedBytes` | w2c2/embedded/memops.S:383-392 | merging two loaded words of a buffer gives its eight bytes at the unaligned place |
| `Words.ReplicateBytes` | w2c2/embedded/memops.S:102-111 | after clamping and three doublings every byte of the register is the low byte of ch |
| `Forward.BytesUp` | w2c2/embedded/memops.S:208-212 | the ascending byte loop copies the bytes as they were before the call, one store each |
| `Forward.WordsUp` | w2c2/embedded/memops.S:285-289 | the ascending word loop copies the words as they were before the call, one store per word, only at aligned addresses |
| `Forward.FourWordsUp` | w2c2/embedded/memops.S:242-249 | four loads before four stores copy 32 bytes although the buffers may overlap |
| `Forward.BlocksUp` | w2c2/embedded/memops.S:241-276 | the unrolled loop copies whole 128-byte blocks and ends exactly at the last address |
| `Forward.TurnUp` | w2c2/embedded/memops.S:382-394 | one turn of the pipelined loop: preloaded words hold source bytes from before the call, and stay so for the next turn |
| `Forward.TurnsUp` | w2c2/embedded/memops.S:323-395 | the pipelined loop copies 16 bytes a turn and loads exactly one word beyond its last turn |
| `Forward.UnalignedUp` | w2c2/embedded/memops.S:311-399 | the unaligned path copies all but the last sz mod 16 bytes and returns both pointers at the first byte not copied |
| `Forward.AlignedUp` | w2c2/embedded/memops.S:231-289 | the aligned path copies all but the last sz mod 8 bytes, sz/8 stores |
| `Forward.Memcpy` | w2c2/embedded/memops.S:192-399 | memory is the snapshot copy for disjoint buffers and every overlap with dst <= src; returns dst; s0 and s1 restored; exact store count and load span |
| `Backward.BytesDown` | w2c2/embedded/memops.S:513-519 | the descending byte loop copies the bytes as they were before the call |
| `Backward.FourWordsDown` | w2c2/embedded/memops.S:548-556 | four loads before four ascending stores below the part already copied |
| `Backward.BlocksDown` | w2c2/embedded/memops.S:536-588 | the descending unrolled loop copies whole 128-byte blocks |
| `Backward.WordsDown` | w2c2/embedded/memops.S:597-601 | the descending word loop copies the words as they were before the call |
| `Backward.TurnDown` | w2c2/embedded/memops.S:642-653 | one turn of the descending pipelined loop, with the preloaded word still as before the call |
| `Backward.UnalignedDown` | w2c2/embedded/memops.S:621-658 | the descending unaligned path copies all but the first sz mod 16 bytes |
| `Backward.AlignedDown` | w2c2/embedded/memops.S:535-601 | the descending aligned path copies all but the first sz mod 8 bytes |
| `Backward.MemcpyR` | w2c2/embedded/memops.S:496-658 | memory is the snapshot copy for disjoint buffers and every overlap with dst >= src; a0 is dst again; s0 and s1 restored; exact store count and load span |
| `Backward.Memmove` | w2c2/embedded/memops.S:490-658 | memory is the snapshot copy for every dst, src, sz and overlap; returns dst; s0 and s1 restored; exact store count and load span |
| `Fill.StoreAt` | w2c2/embedded/memops.S:118-130 | the jump address lands on one of the 32 stores, and the stores from it on write twice as many bytes as the jump goes back |
| `Fill.Stores` | w2c2/embedded/memops.S:133-165 | entering the 32 stores in the middle with a compensated, possibly wrapped base pointer fills exactly up to base + 256 |
| `Fill.Duff` | w2c2/embedded/memops.S:114-166 | the main loop fills exactly up to the rounded last address, whatever store it is entered at |
| `Fill.WordsSet` | w2c2/embedded/memops.S:102-166 | replication, jump entry and main loop fill every whole word and leave sz mod 8 bytes |
| `Fill.Memset` | w2c2/embedded/memops.S:84-174 | exactly [dst, dst+sz) holds the low byte of ch, every other byte is unchanged, dst is returned, exact store count |
| `MemSpec.CostBounds` | w2c2/embedded/memops.S:84-658 | at most sz/8 + 14 stores for a fill and sz/8 + 22 for a copy in either direction, for every alignment |
| `MemSpec.UpFootprint` | w2c2/embedded/memops.S:319-398 | the ascending copy loads only inside [align8(src), src+sz+15) |
| `MemSpec.UpOverread` | w2c2/embedded/memops.S:319-395 | the ascending copy loads a word disjoint from the source exactly if the paths are unaligned and r mod 16 + misalignment <= 8 |
| `MemSpec.UpOverreadIsOneWord` | w2c2/embedded/memops.S:381-395 | what is loaded in excess is one word, the one behind the last the source touches |
| `MemSpec.DownFootprint` | w2c2/embedded/memops.S:631-657 | the descending copy loads only words that intersect the source |
| `Memlib.Memset` | w2c2/embedded/memlib.c:121-131 | a zero fill above 0x100000 bytes leaves memory alone, every other fill is complete |
| `Memlib.SizeOkExact` | w2c2/embedded/memlib.c:24-26 | the bounds test accepts exactly the requests that fit and those whose sum wraps size_t |
| `Memlib.UnsignedPartFits` | w2c2/embedded/memlib.c:6-25 | the 32-bit unsigned part of the bounds test's sum, and the end of the heap, stay below 2^32 |
| `HeapRuns.CallocPlaces` | w2c2/embedded/memlib.c:38-77 | a granted request, the first of its kind or not, lies at the place of its kind, inside the reserve of its kind |
| `HeapRuns.CallocExact` | w2c2/embedded/memlib.c:38-77 | with addresses as numbers: a request with the struct's element size gets the start of the heap, single bytes what lies behind one struct if they fit, any other size the end of the heap below one byte; each records its whole block |
| `HeapRuns.StartupDisjoint` | w2c2/embedded/memlib.c:34-77 | one struct, a table below the reserve and data that fit are granted disjoint ranges inside the heap |
| `HeapRuns.StepKeepsLaid` | w2c2/embedded/memlib.c:38-131 | every call keeps all blocks at their places, and heap bytes never stored to at zero |
| `HeapRuns.RunKeepsLaid` | w2c2/embedded/memlib.c:38-131 | so does every run |
| `HeapRuns.RunIsPlaced` | w2c2/embedded/memlib.c:9-102 | over every sequence of calloc, realloc and free, repeated and shrinking ones included, the last blocks granted of each kind are pairwise disjoint and inside the heap |
| `HeapRuns.DataRequestsOverlap` | w2c2/embedded/memlib.c:45-51 | no more than that: two granted nonempty requests for data always overlap |
| `HeapRuns.RequestsExact` | w2c2/embedded/memlib.c:38-102 | realloc and data calloc are granted exactly if the size fits; a granted realloc keeps pointer and all bytes, a refused request changes nothing |
| `HeapRuns.StepFrame` | w2c2/embedded/memlib.c:55-102 | no call changes a byte it was not given or a block of a kind it does not ask for, and requests change no memory |
| `HeapRuns.TableReserveExact` | w2c2/embedded/memlib.c:21-45 | a table is disjoint from every data block the test accepts exactly if it is smaller than the reserve |
| `HeapRuns.StructReserveExact` | w2c2/embedded/memlib.c:39-51 | a struct block is disjoint from every data block the test accepts exactly up to one struct |
| `HeapRuns.TableReallocExact` | w2c2/embedded/memlib.c:95-102 | realloc of the table returns it, inside the heap exactly for a growth by at most one byte |
| `HeapZeroing.TidyExact` | w2c2/embedded/memlib.c:14-16 | the heap outside the live blocks stays zero exactly if the call takes no nonzero byte from the client |
| `HeapZeroing.UnstoredDropsAreZero` | w2c2/embedded/memlib.c:55-102 | a call that takes only bytes the client never stored to takes only zeros |
| `HeapZeroing.GrowingDropsNothing` | w2c2/embedded/memlib.c:34-37 | allocating a kind for the first time and growing in place take nothing |
| `HeapZeroing.CarefulRunIsTidy` | w2c2/embedded/memlib.c:34-102 | a client that keeps to either of these in every call never takes a nonzero byte out of its blocks |
| `HeapZeroing.RunIsTidy` | w2c2/embedded/memlib.c:14-102 | over every run from zero memory that drops no nonzero byte all heap bytes outside the blocks are zero |
| `HeapZeroing.CallocIsZeroed` | w2c2/embedded/memlib.c:55-77 | the calloc that does not zero returns zeroed memory (ISO C11 7.22.3.2) at any point of such a run, exactly if the block of the kind it replaces holds zeros there |
| `HeapZeroing.SkipExact` | w2c2/embedded/memlib.c:121-131 | skipping a large zero fill is invisible exactly if the range was zero |
| `HeapZeroing.GrownFillIsExact` | w2c2/embedded/memlib.c:95-131 | zero-filling the part a growing realloc adds leaves memory as the full fill would |
| `HeapZeroing.RegrownFillExact` | w2c2/embedded/memlib.c:95-131 | after a shrink and a growth the zero fill of the regrown part is a full one exactly if it is small or the client left zeros past the kept size |
| `HeapZeroing.DirtyRegrowth` | w2c2/embedded/memlib.c:95-131 | a run in which a byte stored past the kept size survives shrink, growth and a skipped zero fill |
| `HeapZeroing.DirtyReallocation` | w2c2/embedded/memlib.c:55-77 | a run in which a second calloc of data returns a byte that is not zero |
| `HeapReference.StepExact` | w2c2/embedded/memlib.c:55-131 | one call leaves the memory that a zeroing calloc and a complete memset leave (ISO C11 7.22.3.2, 7.24.6.1) exactly if the bytes it does not write are zero |
| `HeapReference.SameRuns` | w2c2/embedded/memlib.c:38-131 | the allocator and the reference grant the same blocks in every run, whatever is in memory |
| `HeapReference.RunRefines` | w2c2/embedded/memlib.c:13-131 | over a whole run memory agrees with the reference after every call, exactly if every granted calloc and every skipped fill finds zeros |
| `HeapReference.FirstUseRefines` | w2c2/embedded/memlib.c:34-131 | a client that allocates each kind once, only grows, and zero-fills in large chunks only bytes it has not written cannot tell the two apart |
| `HeapCopies.CopyPastRamExact` | w2c2/embedded/memlib.c:6-11 | the heap ends with RAM: a descending copy loads nothing beyond it, an ascending one exactly on the unaligned path with a source ending in the last word and a short last turn |
| `HeapCopies.OnlyTableCopiesPastRam` | w2c2/embedded/memlib.c:42-51 | in a run only a copy out of the table block can load past the end of RAM |
| `HeapCopies.TableCopyPastRam` | w2c2/embedded/memlib.c:38-77 | a run from a fresh heap after which the client may copy its table by memcpy or memmove and a word past the end of RAM is loaded |
| `HeapCopies.Execute` | w2c2/embedded/memlib.c:113-131 | memset, memcpy and memmove, run by the routines of memops.S on a hart whose memory begins with that of the run, change it exactly as the run's step and change nothing behind it; a copy that loads past RAM needs the one word there |
| `LittleEndian.DecodeEncode` | examples/go/stateless/serialization/serialize.go:35-58 | reading a little-endian integer back gives the integer |
| `LittleEndian.EncodeDecode` | examples/go/stateless/serialization/deserialize.go:51-81 | writing a decoded little-endian integer gives its bytes |
| `WireFormat.IntegerRanges` | examples/go/stateless/serialization/serialize.go:31-58 | the eight integer kinds have the ranges of their names |
| `WireFormat.ReaderTakes` | examples/go/stateless/serialization/deserialize.go:39-132 | what stands for a value on the writer's side does so for the reader |
| `WireLaws.EncOnWire` | examples/go/stateless/serialization/serialize.go:24-115 | the encoder returns bytes exactly if they stand for the value, in words of one, two, four or eight bytes, two's complement, least significant byte first |
| `WireLaws.EncStops` | examples/go/stateless/serialization/serialize.go:102-112 | a struct with a field that fails fails as its first such field does |
| `WireLaws.DecOnWire` | examples/go/stateless/serialization/deserialize.go:39-132 | decoding what stands for a value, arrays of any element included, gives value and next index exactly if the destination has its pointers, else an error |
| `WireLaws.DecExact` | examples/go/stateless/serialization/deserialize.go:39-132 | and nothing else decodes: a value comes out exactly if the consumed bytes stand for it; a bool is true exactly for byte 1 |
| `WireLaws.DecTruncated` | examples/go/stateless/serialization/deserialize.go:39-132 | data that end inside what stands for a value make the decoder panic |
| `WireLaws.DecStops` | examples/go/stateless/serialization/deserialize.go:95-129 | at the first field that fails, the fields before are decoded, those behind untouched, and the failure is that field's |
| `WireLaws.Refusals` | examples/go/stateless/serialization/deserialize.go:86-132 | which kinds the two refuse, and whether with an error or a panic |
| `Serialize.SerializeData` | examples/go/stateless/serialization/serialize.go:24-115 | the encoder with its loops returns the concatenated encodings or the first failure |
| `Serialize.EncSeqStep` | examples/go/stateless/serialization/serialize.go:102-111 | one turn of the encoding loops appends the element's encoding or stops with its failure |
| `Deserialize.SliceEndExact` | examples/go/stateless/serialization/deserialize.go:86-92 | a length from the wire is accepted exactly if that many bytes are left, despite wrapping int arithmetic |
| `Deserialize.DeserializeAt` | examples/go/stateless/serialization/deserialize.go:39-132 | the decoder leaves in memory what the specification says, and returns its index, error or panic, for pointers of any shape |
| `Deserialize.DeserializeEach` | examples/go/stateless/serialization/deserialize.go:95-129 | the loops decode element by element in place, and on a failure leave what was written |
| `Deserialize.DeserializeData` | examples/go/stateless/serialization/deserialize.go:11-37 | succeeds exactly if decoding consumes all data; every cell keeps its type even on a failure |
| `Deserialize.DecKeepsType` | examples/go/stateless/serialization/deserialize.go:39-132 | whatever the bytes are, the destination stays a value of its type |
| `SharedPointers.DecFrame` | examples/go/stateless/serialization/deserialize.go:39-132 | decoding writes only to cells that the destination reaches, and makes no pointers |
| `SharedPointers.UnsharedRefines` | examples/go/stateless/serialization/deserialize.go:39-132 | if no cell is reached twice, decoding in memory is decoding of the value held there, for all bytes and outcomes |
| `SharedPointers.DecodesExact` | examples/go/stateless/serialization/deserialize.go:39-132 | decoding what stands for a value into any destination, with pointers shared at will, puts the value there exactly if the destination has a pointer wherever the value does and no cell has to hold two different things; a missing pointer is an error |
| `SharedPointers.RoundTripExact` | examples/go/stateless/serialization/deserialize.go:39-132 | the same for the encoding of a value |
| `SharedPointers.UnsharedFits` | examples/go/stateless/serialization/deserialize.go:114-119 | without sharing only the missing pointers matter |
| `SharedPointers.SharedTarget` | examples/go/stateless/serialization/deserialize.go:114-129 | two pointers to one byte: of two encoded bytes the second overwrites the first, without an error |
| `SharedPointers.SharedPairFits` | examples/go/stateless/serialization/deserialize.go:114-129 | into that destination exactly the pairs of equal bytes survive |
| `CodecLaws.RoundTrip` | examples/go/stateless/serialization/deserialize.go:39-132 | on values: decoding an encoding, with any prefix and suffix, succeeds exactly if the destination has a pointer wherever the value does, and then yields value and next index; otherwise it is an error |
| `CodecLaws.RoundTripSeq` | examples/go/stateless/serialization/deserialize.go:120-129 | the same for the fields of a struct |
| `GoMemory.NewVariable` | examples/go/stateless/main.go:48 | a new variable holds the zero value of its type and shares nothing |
| `CodecLaws.FreshRoundTrip` | examples/go/stateless/main.go:47-49 | decoding into a zero value works exactly for values without non-nil pointers |
| `CodecLaws.ZeroCovers` | examples/go/stateless/serialization/deserialize.go:114-119 | a zero destination has the pointers a value needs exactly if the value has none |
| `CodecLaws.OneReading` | examples/go/stateless/serialization/deserialize.go:39-132 | no bytes that stand for a value of a type are a proper prefix of others, and the same bytes stand for one value |
| `CodecLaws.PrefixFree` | examples/go/stateless/serialization/serialize.go:24-115 | an encoding that is a prefix of another of the same type comes from the same value |
| `CodecLaws.Reencode` | examples/go/stateless/serialization/deserialize.go:39-132 | a successful decode re-encodes to as many bytes as consumed, and to the same bytes exactly if every bool byte and pointer tag was 0 or 1 |
| `WitnessReader.LengthOf` | examples/go/stateless/main.go:38-42 | the or/shift loop computes the little-endian value |
| `WitnessReader.OrByte` | examples/go/stateless/main.go:41 | one or/shift step adds a byte at its place and shifts nothing out |
| `WitnessReader.Reader.UnsafeRead` | examples/go/stateless/main.go:24-32 | returns the next n bytes and advances exactly if 0 <= n bytes are left, else panics in place |
| `WitnessReader.Reader.Read` | examples/go/stateless/main.go:34-52 | result and offset of one framed read, for every stream |
| `WitnessReader.FrameIsRun` | examples/go/stateless/main.go:34-45 | a frame is an eight-byte length and as many bytes |
| `WitnessReader.ReadExact` | examples/go/stateless/main.go:34-52 | over any frame: the value returned is the one that the whole payload stands for, if it has no non-nil pointer, else a panic; the offset ends behind the frame |
| `WitnessReader.ReadWrongSize` | examples/go/stateless/main.go:34-52 | a payload with bytes left over, or cut short, panics with the offset behind the frame |
| `WitnessReader.ReadShort` | examples/go/stateless/main.go:24-45 | a stream that ends inside the length moves nothing, one that ends inside the payload consumes the length; both panic |
| `WitnessReader.ReadFrame` | examples/go/stateless/main.go:34-52 | a frame gives its value exactly if that has no non-nil pointer, and the offset ends behind the frame |
| `WitnessReader.ReadFrames` | examples/go/stateless/main.go:34-52 | n reads over n frames return the values in order and leave the offset behind the last, exactly if none has a non-nil pointer; else they panic with the offset behind the first frame that has one |
| `WatImports.FieldsOfJoin` | examples/scripts/dotnet2wasm/dotnet2wasm.go:62-67 | splitting joined tokens gives the tokens back |
| `WatImports.OnlyModuleChanges` | examples/scripts/dotnet2wasm/dotnet2wasm.go:58-72 | in a matching line only token 1 changes, and the reported name is token 2 |
| `WatImports.LineIdempotent` | examples/scripts/dotnet2wasm/dotnet2wasm.go:58-72 | rewriting a line twice is rewriting it once |
| `WatImports.ParenthesesKept` | examples/scripts/dotnet2wasm/dotnet2wasm.go:58-72 | a rewritten line keeps its parenthesis counts, plus one on each side where it was not wrapped |
| `WatImports.RewriteShrinks` | examples/scripts/dotnet2wasm/dotnet2wasm.go:58-72 | a rewritten line is never longer in bytes |
| `WatLaws.SpaceTable` | examples/scripts/dotnet2wasm/dotnet2wasm.go:59-62 | which characters count as spaces |
| `WatLaws.SplitIsFields` | examples/scripts/dotnet2wasm/dotnet2wasm.go:62 | splitting finds exactly the words between the spaces |
| `WatLaws.FieldsSplit` | examples/scripts/dotnet2wasm/dotnet2wasm.go:62 | every text consists of the words found, and spaces |
| `WatLaws.SpacesAround` | examples/scripts/dotnet2wasm/dotnet2wasm.go:59-62 | spaces around a line do not change its tokens |
| `WatLaws.ShapeOf` | examples/scripts/dotnet2wasm/dotnet2wasm.go:59-61 | every line is spaces around a text with or without a parenthesis on either side |
| `WatLaws.RewriteExact` | examples/scripts/dotnet2wasm/dotnet2wasm.go:58-72 | a line is rewritten exactly if its words are import, the full module name and at least one more, whatever spaces are around and between them; the result is written out |
| `WatLaws.ImportRenamed` | examples/scripts/dotnet2wasm/dotnet2wasm.go:58-72 | in particular an import in parentheses with any indentation |
| `WatLaws.FileLines` | examples/scripts/dotnet2wasm/dotnet2wasm.go:38-41 | every file consists of lines that end in a newline, perhaps after a carriage return, or in the end of the file |
| `WatLaws.FileRewritten` | examples/scripts/dotnet2wasm/dotnet2wasm.go:38-48 | it is rewritten line by line, each with a plain newline |
| `WatLaws.ScannedAreWritten` | examples/scripts/dotnet2wasm/dotnet2wasm.go:28-51 | what is written are the lines before the first of thirty MiB or more |
| `WatLaws.LongestLine` | examples/scripts/dotnet2wasm/dotnet2wasm.go:28-39 | a line of ASCII characters fits up to 31457279 of them |
| `WatFile.RewriteFile` | examples/scripts/dotnet2wasm/dotnet2wasm.go:27-56 | the scanning loop, on any bytes, writes the rewritten lines up to the first that does not fit the scanner's buffer or the end of what can be read, and succeeds exactly if all fit and reading did not fail |
| `WatFile.FitsAgain` | examples/scripts/dotnet2wasm/dotnet2wasm.go:38-51 | the output of a successful pass can be scanned to its end again |
| `WatFile.LinesKept` | examples/scripts/dotnet2wasm/dotnet2wasm.go:38-48 | same number and order of lines; a line that does not match is kept |
| `WatFile.Idempotent` | examples/scripts/dotnet2wasm/dotnet2wasm.go:38-72 | rewriting a file twice is rewriting it once, exactly if no line that does not match ends in two carriage returns |
| `WatFile.TwoReturns` | examples/scripts/dotnet2wasm/dotnet2wasm.go:38-72 | a file for which the second pass differs: a line of two carriage returns |
| `WatFile.IdempotentWithoutReturns` | examples/scripts/dotnet2wasm/dotnet2wasm.go:38-72 | in particular for files without carriage returns |
| `File2c.PrintSource` | platform/riscv-wamr-qemu/file2c/file2c.c:28-43 | the printing loop, between header and length, emits the items with their separators |
| `File2c.ParseText` | platform/riscv-wamr-qemu/file2c/file2c.c:30-42 | the printed initializer reads back as the bytes exactly if no byte before the last lost its comma |
| `File2c.ListLines` | platform/riscv-wamr-qemu/file2c/file2c.c:41-42 | every line of the list has twenty items, but for the last with items and the line of the brace |
| `File2c.DecimalRoundTrip` | platform/riscv-wamr-qemu/file2c/file2c.c:43 | a printed int reads back |
| `File2c.ParseSourceExact` | platform/riscv-wamr-qemu/file2c/file2c.c:28-43 | the printed source reads back as name, bytes and length, whatever size was found, exactly if no comma is missing |
| `File2c.PrintedRoundTrip` | platform/riscv-wamr-qemu/file2c/file2c.c:22-43 | the whole source reads back exactly below 2^31 bytes; the array alone is right up to 2^32 |
| `FdWrite.Guest.FdWrite` | w2c2/embedded/wasi.c:140-178 | the whole console and memory: up to ten buffers come out as they were on entry, behind the diagnostic lines of a descriptor that is not standard, and only the result word changes, to the total mod 2^32; more than ten print a message, change no memory and give 48 |
| `FdWrite.Guest.PutVecs` | w2c2/embedded/wasi.c:154-174 | the loop prints what the ciovecs point to and totals their lengths |
| `FdWrite.TraceIsPointed` | w2c2/embedded/wasi.c:161-171 | the bytes printed are those of the buffers in order, and on standard descriptors nothing else is printed |
| `FdWrite.LayoutIsGathered` | w2c2/embedded/wasi.c:157-171 | ciovecs laid out as four bytes of pointer and four of length, least significant first, give the contents of their buffers |

## Left out

- `Forward.Memcpy`: claims nothing for a destination strictly inside the source, which its documentation excludes and `_memmove` sends the other way.
- `Fill.Memset`: only the pointer that can go below the buffer is wrapped to 64 bits; the other address registers are unbounded integers, since buffers do not wrap the address space.
- `HeapRuns.Step`: the run of a client is a state machine over values; `HeapCopies.Execute` carries single steps out on a `Hart`. A freed block stays the last of its kind, since `free` does nothing.
- `Serialize.SerializeData`: recursive Go types are not in the type universe, and a nil slice is not told apart from an empty one.
- `CodecLaws.Reencode`: holds for destinations without shared targets only; with sharing a later field may have overwritten what was decoded.
- `Deserialize.DeserializeData`: nil or non-pointer arguments, unexported fields and other reflection failures, and the aliasing between decoded slices and the input are not modelled.
- `WatFile.RewriteFile`: failures to open or create a file are not modelled, and failed writes, which the code ignores, neither.
- `File2c.PrintedRoundTrip`: the array name holds no opening bracket, as C asks of a name; usage and file errors are not modelled.
- `FdWrite.Guest.FdWrite`: the text of the diagnostic lines is not modelled, only which line it is and its number.
- `_memcpy128` to `_memcpy8`, the disabled loop variants and the 32-bit, big-endian and compressed configurations of memops.S.
- The other WASI stubs, drivers, startup code and platform mains: fixed returns or device I/O.
- RLP decoding and block execution in the stateless example, and all other examples.
