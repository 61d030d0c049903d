# smolutils, modelled and proved in Dafny

This project models the parts of smolutils whose correctness is not obvious from one function, and
proves what they are for. `dafny verify dfyconfig.toml` checks all of it.

- **LZ4** (`Lz4*.dfy`). `Lz4Format` is the block format with a naive byte-by-byte decoder. The
  compressor fills an array through a hash table that may be any function of the input; the decoder
  copies more than it needs and uses two small tables for overlapping matches. Both are methods over
  arrays. The compressor's output decodes to its input and keeps the end-of-block rules; what the
  decoder accepts is what the naive one produces.
- **Sparse images and blkwak** (`SparseFormat`, `SparseImages`, `SparseWriter`, `SparseRuns`,
  `BlockWalk`, `Blkwak`, `BlkOverlaps`, `BlkCommands`). The writer is a class over a file; the walks are methods
  over a device array and a shared buffer. Chunks are given a meaning (known bytes and holes), a
  region has a canonical encoding, and a walk has a meaning as a fold over the image's cells.
- **TFTP** (`TftpWire`, `TftpNet`, `Tftp`). `TftpNet` is a conforming server and a network as a state
  machine driven by a script of events, one script for every run. It keeps either bags of packets
  that may be lost, repeated and reordered (sessions of fewer than 65536 blocks), or queues that lose
  packets but keep order (any length). The server reads the packets it is sent: a session begins for
  what is a request in bytes, and sends the file that request names. Retried requests start sessions
  with ports of their own.
  `Tftp` is the client's loops over its buffers. The numbers that packets really have are ghosts;
  the client sees 16 bits.
- **smolsh's lines** (`Readln`, `ReadlnFilter`, `Smolsh`, `SmolshGrammar`, `SmolshPrint`, `SmolshLoop`). The
  line reader with its 256-byte buffer and filter, the parser that rewrites the line it reads, the
  pipeline, and the loop around them; beside them a grammar of all lines, stated without a parser, and
  a printer whose output comes back.
- **telnetd's session** (`RingBuf`, `NonBlockingIo`, `TelnetFormat`, `Telnetd`). Queues, partial writes
  and the telnet automaton; the replies of the kernel are parameters.
- **Dates** (`Date`), **SHA-256** (`Sha256Spec` after FIPS 180-4, `Sha256Example`, `Lonesha256` after the code),
  **NAND writes** (`NandWrite`), **DNS messages** (`DnsWire`, `Resolv`).
- `Bytes` and `Arith` are shared helpers.

What goes over a wire or into a file is also stated in byte literals (the lemmas called `...InBytes` and
`...HeaderBytes`), so that no encoder and decoder can agree on another format.

What the kernel decides (how much a read or write takes, interruptions, what a device holds, which
blocks are bad, what arrives and when) is a parameter or a script that the theorems quantify over.

Points where the code does something a reader might not expect, and what is proved of them:

- `span_fill` restarts the pattern with every buffer. `BlockWalk.FillSpanIsFill` gives the exact
  condition for the result to be right, `BlockWalk.FillGoesWrong` an input for which it is not. For
  buffers of whole words it always is. `BlkCommands.ExpandExactly` says the same of whole images.
- The writer's block and chunk counts wrap at 2^32. `BlkCommands.ImageExpandsExactly` shows that the
  image is good if and only if the region has fewer than 2^32 blocks.
- With `-v` the reader checks no more than these wrapped counts tell of. `BlkCommands.ReadBack` gives
  the exact condition for it to be content, `BlkCommands.SinglesAgree` a family of images of 2^32
  blocks and more for which it always is.
- The walk's place in the output is 64 bits wide and only compared modulo 2^64 at the end.
  `Blkwak.PassesExactly` says when a walk that succeeds was of an image the device can take;
  `SparseImages.WrappedImageLandsElsewhere` shows an image for which it was not.
- `strip_iac` drops a NUL or LF behind a CR. `TelnetFormat.StripInvertsEscape` gives the exact condition
  under which stripping undoes escaping.
- The comment in `readln` says that what is left at the end of the input is the last line; the code
  discards it, and so does the model. A line comes back when it fits both the caller and the buffer
  (`Readln.Fits`): with room for more than 255 bytes the buffer is the limit.
- `LZ4_decompress_generic` accepts more than the format allows: behind a few literals its shortcut and
  its fast loop do not look at the end-of-block rules. `Lz4Decompress.Decompress` is exact about it
  (`Accepted`), and the same for both loops; `Lz4Decompress.LooseBlockIsTaken` shows such a block.
- `LZ4_decompress_generic` accepts matches with offset 0; on every path they decode to zeros, and the
  naive decoder is defined to do the same.
- `parse_cmd` takes a word `2` directly in front of `>` for standard error also when the word was
  quoted; the printer therefore puts a space behind every word. `SmolshPrint.TightLineRunsAsMeant`:
  without that space a word comes back if and only if it is not `2`.

## Model

| member | source | states |
|---|---|---|
| `Lz4Format.CopyMatchRepeats` | thirdparty/lz4/lz4.c:1947-1951 | a match copied byte by byte: what was there stays, and everything it adds repeats what stands `offset` bytes earlier, overlapping or not |
| `Lz4Format.CopyMatchIsRepeating` | thirdparty/lz4/lz4.c:1947-1951 | and nothing else does: any output that repeats at that distance is that copy |
| `Lz4Format.ReadLengthInverts` | thirdparty/lz4/lz4.c:1975-2010 | a length written as nibble and 255-bytes reads back, for every length |
| `Lz4Format.ParseSequence` | thirdparty/lz4/lz4.c:1107-1222 | a written sequence is parsed into its own literals, offset and match length |
| `Lz4Format.DecodeInvertsEncode` | thirdparty/lz4/lz4.c:1866-1958 | every block of well-placed sequences decodes to the text they stand for, and satisfies the end-of-block rules |
| `Lz4Format.EndOfBlock` | thirdparty/lz4/lz4.c:246-247 | in such a block the last match begins at least 12 bytes before the end, and at least 5 literals follow it |
| `Lz4Format.ExtensionInBytes` | thirdparty/lz4/lz4.c:1975-2010 | every 255 adds itself and goes on, the first other byte ends the length |
| `Lz4Format.SequenceInBytes` | thirdparty/lz4/lz4.c:2211-2431 | token nibbles, and an offset with its low byte first, in bytes |
| `Lz4Format.SmallBlock` | thirdparty/lz4/lz4.c:1866-1958 | a block of six bytes for any two bytes: nine times the one, then the other |
| `Lz4Memory.WildCopy8From` | thirdparty/lz4/lz4.c:464-471 | copying 8 bytes at a time past the end leaves the asked bytes right and everything before them alone |
| `Lz4Memory.WildCopy8Back` | thirdparty/lz4/lz4.c:464-471 | within one buffer, at a distance of at least 8, it repeats like a byte-by-byte copy |
| `Lz4Memory.WildCopy32From` | thirdparty/lz4/lz4.c:517-525 | the same 32 bytes at a time |
| `Lz4Memory.WildCopy32Back` | thirdparty/lz4/lz4.c:517-525 | within one buffer, at a distance of at least 16, it repeats like a byte-by-byte copy |
| `Lz4Match.Count` | thirdparty/lz4/lz4.c:674-700 | the number of equal bytes up to the limit, no more and no fewer, from words of 8, 4, 2 and 1 |
| `Lz4Match.TryPosition` | thirdparty/lz4/lz4.c:1055-1094 | whatever the hash function, it is a hit if and only if the place the table held before is near enough and has the same four bytes; the table then holds this one |
| `Lz4Match.FindMatch` | thirdparty/lz4/lz4.c:1013-1097 | goes on from place to place by the source's steps as long as none is a hit, and ends with the first that is, or at the input's end with none; the table holds exactly the places tried |
| `Lz4Match.CatchUp` | thirdparty/lz4/lz4.c:1099-1104 | goes back over equal bytes as far as there are any, to the anchor or the start of the input at most |
| `Lz4Compress.WriteLiteralLength` | thirdparty/lz4/lz4.c:1120-1125 | the 255-bytes of a literal length |
| `Lz4Compress.WriteMatchLength` | thirdparty/lz4/lz4.c:1209-1222 | the 255-bytes of a match length, stored four at a time: the over-long stores are covered by what is written next |
| `Lz4Compress.RoomForHead` | thirdparty/lz4/lz4.c:1107-1132 | literals with their wild copy stay inside n + n/255 + 16 |
| `Lz4Compress.RoomForMatch` | thirdparty/lz4/lz4.c:1152-1222 | offset, length bytes and the 4-byte stores stay inside it |
| `Lz4Compress.RoomForLast` | thirdparty/lz4/lz4.c:1298-1325 | and so do the last literals |
| `Lz4Compress.EncodeMatch` | thirdparty/lz4/lz4.c:1134-1222 | the longest match there is, up to the last 5 bytes, and exactly its sequence behind what is written |
| `Lz4Compress.EncodeMatches` | thirdparty/lz4/lz4.c:1134-1292 | any number of matches in a row keeps: the output is the encoding of the input consumed so far |
| `Lz4Compress.CompressSequences` | thirdparty/lz4/lz4.c:999-1296 | the main loop, from a zeroed table, for every hash function and acceleration; it ends because of the input's end or a search in vain, never before |
| `Lz4Compress.CompressValidated` | thirdparty/lz4/lz4.c:926-1334 | the result is the encoding of sequences that expand to the input, and never longer than the bound |
| `Lz4Compress.Compress` | thirdparty/lz4/lz4.c:1340-1375 | 0 exactly for inputs over the maximum; otherwise a block that decodes to the input |
| `Lz4.CompressFast` | thirdparty/lz4/lz4.c:1378-1400 | the same with the acceleration clamped and the table chosen by size |
| `Lz4Overlap.SpreadIsWholeTurns` | thirdparty/lz4/lz4.c:475-476 | both tables together move the match to a distance of at least 8 that is a whole number of offsets |
| `Lz4Overlap.SpreadGoesOn` | thirdparty/lz4/lz4.c:2403-2415 | copying on at that distance continues the pattern of the offset (offset 0: zeros) |
| `Lz4Overlap.FirstEight` | thirdparty/lz4/lz4.c:491-508 | the first 8 bytes of a close match repeat at its offset |
| `Lz4Overlap.MemcpyUsingOffset` | thirdparty/lz4/lz4.c:531-568 | the fast loop's overlap copy equals a byte-by-byte match, wild stores included |
| `Lz4Overlap.SafeMatchCopy` | thirdparty/lz4/lz4.c:2403-2430 | the safe loop's match copy equals a byte-by-byte match, and refuses exactly those that leave fewer than 5 bytes |
| `Lz4Overlap.ShortMatchCopy` | thirdparty/lz4/lz4.c:2241-2248 | 18 bytes at once for short matches |
| `Lz4Decompress.ReadVariableLength` | thirdparty/lz4/lz4.c:1975-2010 | reads an extension within its limit, and fails otherwise |
| `Lz4Decompress.SafeSequence` | thirdparty/lz4/lz4.c:2211-2431 | one turn of the safe loop: output so far equals the naive decoder's, and the block is refused or finished exactly as `Takes` says |
| `Lz4Decompress.Shortcut` | thirdparty/lz4/lz4.c:2217-2257 | the two-stage shortcut changes nothing |
| `Lz4Decompress.FastSequence` | thirdparty/lz4/lz4.c:2079-2205 | one turn of the fast loop, with its exits into the safe loop |
| `Lz4Decompress.FastLoop` | thirdparty/lz4/lz4.c:2079-2205 | the fast loop as a whole |
| `Lz4Decompress.Decompress` | thirdparty/lz4/lz4.c:2019-2441 | a block is accepted if and only if it is `Accepted`, with the fast loop and without it, and then the output is the naive decoder's (offset 0 included) |
| `Lz4Decompress.TakenDecodes` | thirdparty/lz4/lz4.c:2211-2431 | every block that is taken decodes, into the destination it was taken for |
| `Lz4Decompress.StrictIsTaken` | thirdparty/lz4/lz4.c:243-247 | every block that keeps the format's end-of-block rules is taken |
| `Lz4Decompress.LooseBlockIsTaken` | thirdparty/lz4/lz4.c:2217-2257 | a block that breaks them and is taken all the same: the shortcut does not look at the end |
| `Lz4.RoundTrip` | thirdparty/lz4/lz4.c:1378-1400 | decompressing the compressor's output gives back the input: every input size, hash function, acceleration, either decoder loop |
| `SparseFormat.ReadHeaderInverts` | inc/android_sparse_img.h:39-71 | a written image header is read back |
| `SparseFormat.ReadChunkInverts` | inc/android_sparse_img.h:73-139 | a written chunk is read back, and the reader stands behind it |
| `SparseFormat.ImageHeaderBytes` | inc/android_sparse_img.h:165-178 | the header of every image written, byte by byte: 3a ff 26 ed, version 1.0, the sizes 28, 12 and 4096, the two counts with their low bytes first, no checksum |
| `SparseFormat.RawChunkBytes` | inc/android_sparse_img.h:230-247 | a raw chunk byte by byte: c1 ca 00 00, its blocks, its bytes with the header, the data |
| `SparseFormat.FillChunkBytes` | inc/android_sparse_img.h:250-269 | a fill chunk byte by byte: c2 ca 00 00, its blocks, 16, the word |
| `Bytes.BytesOfFields` | inc/android_sparse_img.h:39-71 | which byte of a 16- or 32-bit field is which when written, in either byte order |
| `Bytes.FieldsFromBytes` | inc/android_sparse_img.h:39-71 | and when read |
| `SparseFormat.ReadLayout` | inc/android_sparse_img.h:73-139 | chunks laid out one after the other are read back in order, whatever follows them |
| `SparseImages.HeaderRead` | inc/android_sparse_img.h:39-71 | the header of any image of the format is read, longer ones included |
| `SparseImages.HeaderFound` | inc/android_sparse_img.h:39-71 | conversely whatever is read as a header is one of the format |
| `SparseImages.HeaderInBytes` | inc/android_sparse_img.h:39-71 | such a header byte by byte |
| `SparseImages.SparseByMagic` | inc/android_sparse_img.h:39-42 | a file is taken for an image if and only if it has 28 bytes and begins 3a ff 26 ed |
| `SparseImages.PartRead` | inc/android_sparse_img.h:73-139 | a chunk of any of the four kinds, with a header of any length, is read as what it is |
| `SparseImages.PartFound` | inc/android_sparse_img.h:73-139 | conversely where a chunk is read, such a chunk stands in the file |
| `SparseImages.PartInBytes` | inc/android_sparse_img.h:73-139 | a chunk of any kind byte by byte |
| `SparseImages.NothingMissing` | inc/android_sparse_img.h:73-139 | a chunk read beyond the end of the file is one without bytes to read |
| `SparseImages.ImageListed` | blkwak.c:298-337 | the chunks of an image are listed whatever they add up to and whatever follows them |
| `SparseImages.ImageRead` | blkwak.c:284-345 | every well-formed image is understood as exactly its chunks, whatever follows them |
| `SparseWriter.SparseOut.constructor` | inc/android_sparse_img.h:218-227 | creating an image: no chunks, header in place |
| `SparseWriter.SparseOut.Grows` | inc/android_sparse_img.h:192-205 | grows exactly when the last chunk is of the kind and both 32-bit sizes still fit |
| `SparseWriter.MergedExactly` | inc/android_sparse_img.h:192-205 | two chunks are merged if and only if they are raw ones of at most 0xffffffff bytes with their header, or fills of one word of at most 0xffffffff blocks |
| `SparseWriter.SparseOut.NewChunk` | inc/android_sparse_img.h:207-215 | the book-keeping of a new chunk |
| `SparseWriter.SparseOut.Append` | inc/android_sparse_img.h:230-269 | data behind the last chunk and its header once more leave exactly the larger chunk in the file |
| `SparseWriter.SparseOut.PutRaw` | inc/android_sparse_img.h:230-247 | the file holds the chunks with these blocks merged into the last, or as a new one |
| `SparseWriter.SparseOut.PutFill` | inc/android_sparse_img.h:250-269 | the same for a fill |
| `SparseWriter.SparseOut.Finish` | inc/android_sparse_img.h:272-275 | the header has the counts of the chunks that are there, modulo 2^32 |
| `SparseRuns.IsFillMeaning` | blkwak.c:422-425 | comparing a block with itself four bytes on says exactly whether it is one word over and over |
| `SparseRuns.RunCells` | blkwak.c:438-447 | what put_blocks puts for a run stands for its bytes |
| `SparseRuns.CanonRun` | blkwak.c:449-482 | a run put in one call gives the same chunks as its blocks one by one |
| `SparseRuns.ExpandPut` | inc/android_sparse_img.h:230-269 | a put appends its bytes to what the image stands for, merged or not |
| `SparseRuns.PutLeavesNoneMergeable` | inc/android_sparse_img.h:192-205 | no two neighbouring chunks could have been merged, also at the 32-bit limits |
| `SparseRuns.PutIsJoin` | inc/android_sparse_img.h:192-205 | as long as no run is too long for a chunk the limits change nothing |
| `SparseRuns.CanonIsNormal` | blkwak.c:422-482 | the canonical encoding stands for its region and nothing in it can be merged |
| `SparseRuns.NormalIsCanon` | blkwak.c:422-482 | it is the only such encoding |
| `BlockWalk.WriteOverlays` | blkwak.c:214-241 | a write walk leaves the image's known bytes at their places, and every other byte as it was |
| `BlockWalk.CompareCounts` | blkwak.c:214-241 | a compare walk counts exactly the differing bytes, and the first it names is the least |
| `BlockWalk.NothingDiffersAfterWrite` | blkwak.c:539-584 | after the write nothing differs |
| `BlockWalk.FillSpanIsFill` | blkwak.c:262-282 | exactly when a fill comes out right: whole-word buffers, fills that fit the buffer, or patterns that hide the slip |
| `BlockWalk.FillGoesWrong` | blkwak.c:262-282 | a buffer size and pattern for which it does not |
| `Blkwak.Walk.SpanData` | blkwak.c:214-241 | one span, written or compared; fails exactly past the device's end |
| `Blkwak.Walk.CountSpan` | blkwak.c:228-239 | the count and the first differing place of a span |
| `Blkwak.Walk.SpanFill` | blkwak.c:262-282 | a fill through the buffer, in pieces |
| `Blkwak.Walk.WalkRaw` | blkwak.c:243-260 | a raw image, in pieces |
| `Blkwak.Walk.NextHead` | inc/android_sparse_img.h:73-139 | the next chunk's head: its checks, its sizes and where its data is |
| `Blkwak.Walk.WalkChunk` | blkwak.c:300-337 | one chunk of any kind: fails exactly when it is malformed or leaves the device; the place behind it wraps at 64 bits |
| `Blkwak.Walk.WalkSparse` | blkwak.c:284-345 | succeeds exactly for sound images that stay on the device chunk by chunk and add up modulo 2^64, and then visits each chunk at its 64-bit place |
| `Blkwak.Walk.WalkImage` | blkwak.c:347-379 | sparse or raw by the magic, with the same exact result; comparing never changes the device |
| `Blkwak.AcceptedIsWalked` | blkwak.c:284-345 | an image that adds up and fits the device is walked, and what is visited is its cells one after the other from the offset on |
| `Blkwak.PassesExactly` | blkwak.c:284-345 | a walk that succeeds was of such an image if and only if offset plus chunk lengths stay below 2^64 |
| `SparseImages.WrappedImageLandsElsewhere` | blkwak.c:284-345 | an image of 80 bytes for which they do not: no device can take it, the walk at 4 GiB succeeds, and its fill lands at 0 |
| `BlkCommands.EncodesMore` | blkwak.c:449-482 | what each run put keeps: stands for the region so far, nothing mergeable, canonical while runs fit, no more chunks than blocks |
| `BlkCommands.PutBlocks` | blkwak.c:438-447 | a run goes out as the one chunk it is |
| `BlkCommands.PutBuffer` | blkwak.c:471-480 | a buffer is cut into runs and all of it is put |
| `BlkCommands.PutRegion` | blkwak.c:449-485 | the image in the file encodes the region, for every buffer of whole blocks |
| `BlkCommands.ChunksReadBack` | blkwak.c:284-345 | below 2^32 blocks the header's counts are exact and the chunks are read as written |
| `BlkCommands.ImageExpandsExactly` | blkwak.c:449-485 | the image is accepted and expands to its region if and only if the region has fewer than 2^32 blocks |
| `BlkCommands.ImageIsWholeFile` | blkwak.c:449-485 | in a file that was empty there is the image and nothing else |
| `BlkCommands.BufferSizeDoesNotMatter` | blkwak.c:449-485 | two buffer sizes give the same bytes, as long as no run is too long for a chunk |
| `BlkCommands.ReadSparse` | blkwak.c:449-498 | the image encodes the region, the device is untouched, and with -v the result is 0 exactly when the counts modulo 2^32 agree, as they do below 2^32 blocks |
| `BlkCommands.ReadBack` | blkwak.c:492-497 | the verify step on its own: it fails exactly when the chunks its counts tell of do not add up to the blocks they tell of |
| `BlkCommands.ReadBackMeans` | blkwak.c:492-497 | what the read-back sees of any image the writer makes is a front of the region, so it never finds a difference |
| `BlkCommands.SinglesAgree` | blkwak.c:449-498 | with chunks of one block each it is content at any size, also from 2^32 blocks on, where the image is not the region's |
| `BlkCommands.Write` | blkwak.c:539-584 | fails exactly for images the walk does not get through; otherwise the device is the walked one, and with -v the result is 0 exactly if no two chunks put different bytes in one place. For an image the device can take the result is 0 and the device holds its cells |
| `BlkCommands.WriteMeans` | blkwak.c:539-584 | writing such an image overlays its cells, and comparing afterwards finds nothing |
| `BlkOverlaps.WalkedByte` | blkwak.c:284-345 | after a write walk each place holds what the last chunk to reach it says, wrapped places included |
| `BlkOverlaps.VerifiedExactly` | blkwak.c:539-584 | comparing what was just written finds nothing if and only if no two chunks disagree about a place |
| `BlkCommands.WrittenDevice` | blkwak.c:262-345 | what a walk puts in place is what the image's chunks stand for if and only if each fill comes out right; with a buffer of whole words each does |
| `BlkCommands.ExpandExactly` | blkwak.c:262-282 | for any chunks and any buffer: the walked cells are the right ones exactly when every fill on its own is right |
| `BlkCommands.Cmp` | blkwak.c:586-611 | fails exactly for images the walk does not get through; for one the device can take, exit code and report are the exact count and the least place of the differences |
| `BlkCommands.ReadThenWrite` | blkwak.c:449-584 | an image read from a region and written elsewhere carries the region there and changes nothing around it |
| `TftpWire.ParseUlInvertsDecimal` | inc/numbers.h:31-41 | a number written in decimal is parsed back |
| `TftpWire.OackUnderstood` | tftp.c:156-197 | an acknowledged block size in the requested range is taken, whatever the case of its name |
| `TftpWire.BlockLengths` | tftp.c:311-368 | exactly the last block of a file is short, the empty one after whole blocks included |
| `TftpWire.NextBlock` | tftp.c:370-387 | blocks in order make up the file |
| `TftpNet.Arrived` | tftp.c:263-309 | what reaches the server keeps the agreement between the two sides, also across 16-bit wrap |
| `TftpNet.Delivered` | tftp.c:263-309 | what reaches the client keeps it; the awaited reply moves it on by one |
| `TftpNet.DownIsReply` | tftp.c:263-309 | 16 bits of a number identify a reply on its way |
| `TftpNet.Lost` | tftp.c:263-309 | losing packets keeps the agreement |
| `TftpNet.Net.Elsewhere` | tftp.c:263-309 | every step of server and network that does not reach the client keeps it |
| `TftpNet.Net.Receive` | tftp.c:202-261 | every run of the network up to the next arrival keeps it, and says what an arrival can be |
| `Tftp.ReplyRead` | tftp.c:263-309 | opcode, number and data of a reply |
| `Tftp.Client.BuildRequest` | tftp.c:116-139 | fails exactly for names that are too long; otherwise the packet is the opcode and the strings, less those that do not fit |
| `TftpWire.RequestSentExactly` | tftp.c:101-139 | that packet is the request with its mode and option if and only if all of it fits |
| `TftpWire.RequestUnderstood` | tftp.c:116-139 | a server reads what was sent as the request that was meant, for that name, if and only if name and mode fit; with the option if all of it does |
| `TftpWire.RequestInBytes` | tftp.c:116-139 | what goes out begins 0, 1 or 2, the name and a NUL |
| `TftpWire.WholeRequestInBytes` | tftp.c:116-139 | the request byte by byte, with its mode and option |
| `TftpWire.NumbersInBytes` | inc/numbers.h:31-41 | block sizes in decimal, byte by byte |
| `TftpWire.PacketsInBytes` | tftp.c:80-106 | the other packets byte by byte |
| `TftpNet.OwnAsksRight` | tftp.c:311-331 | so the client's own request is never taken for another transfer |
| `TftpNet.TermsOfStart` | tftp.c:333-339 | blocks have 512 bytes, or with the option between 8 and what was asked for |
| `Tftp.StatusCodes` | tftp.c:246-255 | the exit codes for what a server says: 66 if the file is not there, 77 without access, 69 otherwise |
| `Tftp.Client.SendError` | tftp.c:87-106 | the error packet byte by byte: 00 05, the code, the text and a NUL |
| `Tftp.Client.Recv` | tftp.c:202-261 | only the locked port is listened to; the first packet locks it; errors end the transfer with their exit code |
| `Tftp.Client.Transact` | tftp.c:263-309 | when it succeeds the awaited reply is there and nothing else was taken for it; it has sent one to five times, and once more for each repeated block that came. It fails after exactly five, or because nothing could be received or the server said so |
| `Tftp.Client.ParseOack` | tftp.c:156-197 | the loop over the options takes the last block size offered, or refuses it |
| `Tftp.Client.TakeOptions` | tftp.c:333-339 | the negotiated size is the server's |
| `Tftp.Client.TakeBlock` | tftp.c:341-364 | the local file grows by exactly the awaited block |
| `Tftp.Client.GetFile` | tftp.c:311-368 | in every run the local file is the front of the server's file of that name, all of it when the get returns 0, and then the last block has been acknowledged; only the own request is ever asked. It fails only for a name that is too long, for want of room, which the server is told, for a failure elsewhere, or a reply that was asked for five times, each with its exit code |
| `Tftp.Client.ReadBlock` | tftp.c:370-387 | the next block of the local file, in a packet |
| `Tftp.Run` | tftp.c:448-533 | the program from its arguments to its exit code: 0 means the file of that name got across; a get leaves a front of it in any case, and so does a put in every session of the server. All that went to the server's port begins 0, 1 for a get and 0, 2 for a put, and the name; each other exit code has its reason |
| `Tftp.Client.PutFile` | tftp.c:389-431 | when it returns 0 the server has stored all of the file under that name and seen its short block; in every run each session has stored a front of it, and no block was sent more than five times. It fails only for a name that is too long, a failure elsewhere, or a reply that was asked for five times, each with its exit code |
| `Readln.ShellState.ShellChar` | inc/readln.h:169-218 | the filter's decision for a character and the quoting it keeps |
| `Readln.Reader.Consume` | inc/readln.h:35-40 | the rest of the stream stays as it is |
| `Readln.Reader.Copy` | inc/readln.h:43-84 | a line through the filter, and how much of it is used up |
| `Readln.Reader.Readln` | inc/readln.h:92-161 | each result and what it leaves depend on the stream alone, not on how read() cuts it; an interruption changes nothing that follows |
| `Readln.StepOverLine` | inc/readln.h:92-161 | one call for each line, wherever the buffer stands in it |
| `Readln.LinesComeBack` | inc/readln.h:92-161 | without a filter each line that fits comes back verbatim, and each other line gives exactly one overflow |
| `ReadlnFilter.EveryLineFiltered` | inc/readln.h:169-218 | every line is made of single, escaped and quoted units up to a comment, a semicolon or its end, and what comes through is what these keep |
| `ReadlnFilter.LineFiltered` | inc/readln.h:169-218 | and for any such units, not only those that were found |
| `Smolsh.ScanWord` | smolsh.c:341-384 | a word is read and written over itself: its text stands at its start and what follows is untouched |
| `Smolsh.Chop` | smolsh.c:330-399 | word, operator and append flag are read before the word's end lands on them |
| `Smolsh.Place` | smolsh.c:401-414 | a word goes to its redirection or behind the others, at most 16 of them |
| `Smolsh.ParseCmd` | smolsh.c:311-430 | the in-place parser is the pure one, and no word it stored is overwritten |
| `Smolsh.StaysStored` | smolsh.c:311-430 | changes from where the next command begins leave the words of earlier commands alone |
| `Smolsh.RunLine` | smolsh.c:536-571 | a pipeline runs the commands the pure parser finds, each with its words as the line spells them |
| `SmolshGrammar.EveryLine` | smolsh.c:536-571 | every line whatsoever is one of a grammar of words, operators and broken ends, stated without a parser, and runs what it says there |
| `SmolshGrammar.LineRuns` | smolsh.c:536-571 | and any line of that grammar does, however its words are spelled and whether or not spaces stand around its operators |
| `SmolshGrammar.SpellingRead` | smolsh.c:341-386 | a word spelled in any way, plainly, with backslashes or in quotes, is read as what it means, up to a space, an operator or the end |
| `SmolshGrammar.TightOperators` | smolsh.c:387-399 | a|b, a<b, a>b and a>>b for any plain words: two commands, and the three redirections |
| `SmolshGrammar.SpacedWords` | smolsh.c:401-414 | a b is one command of two words |
| `SmolshGrammar.StderrAlone` | smolsh.c:396-399 | 2>a is a redirection of standard error |
| `SmolshGrammar.ErrorLines` | smolsh.c:536-571 | |a and $a are syntax errors that run nothing, a| is one behind a |
| `SmolshPrint.CommandParsed` | smolsh.c:311-430 | a printed command is parsed back: words, redirections, append flags |
| `SmolshPrint.LineParsed` | smolsh.c:536-571 | a printed pipeline is parsed back |
| `SmolshPrint.PassesUnchanged` | inc/readln.h:169-218 | the filter leaves printed text alone |
| `SmolshPrint.PrintedRunsAsMeant` | inc/readln.h:221-231 | any pipeline printed in at most 255 bytes comes through reader, filter and parser as it was |
| `SmolshPrint.TightWordRead` | smolsh.c:311-430 | a printed word directly in front of `>` is read as that word if and only if it is not `2`, whose quoting is lost |
| `SmolshPrint.TightStopRead` | smolsh.c:387-394 | `<` and `|` right behind a printed word end it and count |
| `SmolshPrint.TightLineRunsAsMeant` | smolsh.c:536-571 | so a line printed without that space runs as meant if and only if the word is not `2` |
| `SmolshPrint.QuotedTwoIsLost` | smolsh.c:396-399 | the input that shows it: `\2>f` |
| `SmolshLoop.StagesAgree` | inc/readln.h:43-84 | what the filter passes on is quoted for the parser exactly where the filter took it to be; it never cuts inside quotes |
| `SmolshLoop.LineIsClosed` | smolsh.c:341-386 | lines that run without a syntax error leave no quote or backslash open |
| `SmolshLoop.SameSession` | inc/readln.h:92-161 | readers that differ only in what is being thrown away run the same commands |
| `SmolshLoop.SessionOverLine` | smolsh.c:593-629 | a session line by line: one of at most 255 bytes runs what the filter keeps of it, and goes on behind a semicolon; a longer one is skipped |
| `SmolshLoop.SessionEnds` | inc/readln.h:92-161 | what has no newline behind it never runs |
| `SmolshLoop.Shell` | smolsh.c:593-629 | what a shell runs depends on its input's bytes, not on how they arrive |
| `SmolshLoop.PrintedIsRun` | smolsh.c:593-629 | a printed pipeline on a line of its own runs as meant, whatever follows |
| `RingBuf.MaskIsMod` | inc/ringbuf.h:68-83 | masking with a power of two less one is the remainder |
| `RingBuf.MaskWraps` | inc/ringbuf.h:66-83 | for every index the ring computes it is going round once |
| `RingBuf.RingBuf.Span` | inc/ringbuf.h:55-63 | a prefix of the queue, empty only when the queue is |
| `RingBuf.RingBuf.Put` | inc/ringbuf.h:66-71 | one byte behind the queue |
| `RingBuf.RingBuf.Nomnom` | inc/ringbuf.h:73-78 | that many bytes off its front |
| `RingBuf.RingBuf.Add` | inc/ringbuf.h:80-99 | all of the data behind the queue, or nothing if it does not fit |
| `RingBuf.TwoCopies` | inc/ringbuf.h:91-96 | the two copies around the end of the array are one append |
| `NonBlockingIo.NonBlockingIo.Drain` | inc/nonblockingio.h:52-69 | what was written and what waits stay one stream, whatever write() takes; written is the least of what it takes, what waits, and what lies in one piece, and no more |
| `NonBlockingIo.NonBlockingIo.Write` | inc/nonblockingio.h:77-84 | the stream grows by the data or, if it does not fit, by nothing |
| `TelnetFormat.StripCut` | telnetd.c:134-187 | stripping does not depend on how the stream is cut |
| `TelnetFormat.StripMeaning` | telnetd.c:134-187 | on every well-formed stream of commands and data, exactly the data comes through |
| `TelnetFormat.ItemsInBytes` | telnetd.c:29-45 | the bytes of commands and data, and of what a client gets first |
| `TelnetFormat.StripInvertsEscape` | telnetd.c:189-213 | stripping undoes escaping if and only if the data has no CR in front of NUL or LF |
| `TelnetFormat.EscapeAtMostDoubles` | telnetd.c:189-213 | escaping at most doubles |
| `Telnetd.Session.StripIac` | telnetd.c:134-187 | the in-place automaton is the pure one |
| `Telnetd.Session.EscapeInto` | telnetd.c:195-213 | the data is queued escaped, unless twice its size does not fit |
| `Telnetd.Session.ServeSock` | telnetd.c:240-255 | the room is checked before reading: queueing fails only when a read or write does |
| `Telnetd.Session.ServeMaster` | telnetd.c:257-266 | half the room is read, so escaping always fits |
| `Telnetd.Session.Start` | telnetd.c:123-131 | of the hello a new client is written at once the lesser of what the descriptor takes and its nine bytes; the rest waits |
| `Telnetd.Session.Service` | telnetd.c:215-273 | one wakeup is `Turn` on what was read and written so far: whether the session lives on, what it has received and how much each descriptor has taken; what is received is what the wakeup delivers into at least the room there was, and each descriptor that is ready is written the least of what it takes, what waits and what lies in one piece |
| `Telnetd.Session.Pump` | telnetd.c:215-273 | every run is `Turns`; as long as the session lives, written plus queued is strip(all received) one way, hello and escape(all received) the other, and each wakeup was received and written in its turn, as much of it as there was room for and as the descriptors took |
| `Telnetd.TurnsDeliver` | telnetd.c:215-273 | in every run that goes on, each wakeup adds all it offers to what was received, or as much as the free room of the queue at that time, or more; and what was waiting is written as far as the descriptors take it |
| `Telnetd.TurnWrites` | telnetd.c:215-273 | of what waits, and of what was just read, each wakeup writes as much as the descriptor takes from the piece at the front |
| `Telnetd.TurnEndsFor` | telnetd.c:215-273 | a hang-up, a failing read, or a failing write of something that waits ends the session |
| `Date.CivilRoundTrip` | inc/date.h:18-44 | a date turned into days and back |
| `Date.DaysRoundTrip` | inc/date.h:18-44 | days turned into a date and back, which is a valid date, for all integers |
| `Date.EpochIsDayZero` | inc/date.h:18-29 | 1970-01-01 is day 0 |
| `Date.NextDayIsOneMore` | inc/date.h:18-29 | the next calendar day is one more |
| `Date.EpochRoundTrip` | inc/date.h:46-68 | seconds turned into a date and back, for s >= 0 |
| `Date.DateTimeRoundTrip` | inc/date.h:46-68 | a date and time turned into seconds and back, and its weekday |
| `Sha256Spec.FillingIsSmallest` | thirdparty/lonesha256.h:117-133 | the padding is the smallest that fills a block (FIPS 180-4 section 5.1.1) |
| `Sha256Spec.StoreInverts` | thirdparty/lonesha256.h:64-68 | a stored word is loaded back |
| `Sha256Example.Abc` | thirdparty/lonesha256.h:92-148 | the digest of the three bytes abc is the one FIPS 180-4 is published with, through all 64 rounds |
| `Sha256Spec.InitialStateIsSquareRoots` | thirdparty/lonesha256.h:116-119 | the initial state is the fractions of the square roots of the first eight primes (section 5.3.3) |
| `Sha256Spec.ConstantsOfRow0` | thirdparty/lonesha256.h:96-97 | round constants 0 to 7 are the fractions of the cube roots of their primes (section 4.2.2) |
| `Sha256Spec.ConstantsOfRow1` | thirdparty/lonesha256.h:98-99 | round constants 8 to 15 are the fractions of the cube roots of their primes (section 4.2.2) |
| `Sha256Spec.ConstantsOfRow2` | thirdparty/lonesha256.h:100-101 | round constants 16 to 23 are the fractions of the cube roots of their primes (section 4.2.2) |
| `Sha256Spec.ConstantsOfRow3` | thirdparty/lonesha256.h:102-103 | round constants 24 to 31 are the fractions of the cube roots of their primes (section 4.2.2) |
| `Sha256Spec.ConstantsOfRow4` | thirdparty/lonesha256.h:104-105 | round constants 32 to 39 are the fractions of the cube roots of their primes (section 4.2.2) |
| `Sha256Spec.ConstantsOfRow5` | thirdparty/lonesha256.h:106-107 | round constants 40 to 47 are the fractions of the cube roots of their primes (section 4.2.2) |
| `Sha256Spec.ConstantsOfRow6` | thirdparty/lonesha256.h:108-109 | round constants 48 to 55 are the fractions of the cube roots of their primes (section 4.2.2) |
| `Sha256Spec.ConstantsOfRow7` | thirdparty/lonesha256.h:110-111 | round constants 56 to 63 are the fractions of the cube roots of their primes (section 4.2.2) |
| `BitTricks.ChoiceTrick` | thirdparty/lonesha256.h:60 | the rewritten Ch is Ch |
| `BitTricks.MajorityTrick` | thirdparty/lonesha256.h:61 | the rewritten Maj is Maj |
| `Lonesha256.Gamma0` | thirdparty/lonesha256.h:57 | the masked shifts of the macro are the rotations of section 4.1.2 |
| `Lonesha256.Gamma1` | thirdparty/lonesha256.h:58 | likewise |
| `Lonesha256.T0Sum` | thirdparty/lonesha256.h:60 | likewise |
| `Lonesha256.T1Sum` | thirdparty/lonesha256.h:61 | likewise |
| `Lonesha256.Hash.Expand` | thirdparty/lonesha256.h:76-77 | W is the message schedule |
| `Lonesha256.Hash.OneRound` | thirdparty/lonesha256.h:59-63 | RND and the shift of the eight words are one round of section 6.2.2 |
| `Lonesha256.Hash.CompressBlock` | thirdparty/lonesha256.h:74-83 | SHA256_COMPRESS is the compression of one block |
| `Lonesha256.Hash.Finish` | thirdparty/lonesha256.h:127-146 | the one- and the two-block ending |
| `Lonesha256.FinalIsPad` | thirdparty/lonesha256.h:127-142 | they finish exactly the padded message |
| `Lonesha256.Hash.Fixed` | thirdparty/lonesha256.h:92-148 | equals SHA-256 for every message shorter than 2^61 bytes |
| `Lonesha256.Hash.Stream` | thirdparty/lonesha256.h:151-207 | succeeds exactly if none of its len / 64 + 1 reads fails; then it equals SHA-256 of the first len bytes when the file has that many, and it has exactly if that many were read |
| `NandWrite.SkipBad` | mtd.c:398-400 | stops at the first block that is not bad, or at the end: for every bad-block map |
| `NandWrite.KeptInBlock` | mtd.c:372-402 | a chunk cut for one block fits the good block it ends up in |
| `NandWrite.PutChunk` | mtd.c:388-412 | whole pages inside one good block; out of room only when every good block is full |
| `NandWrite.NandWrite` | mtd.c:318-416 | bad blocks and what is before the start are untouched, every write is proper, the good blocks hold the padded file, or the whole pages of a front of it when it fails on the way; and exactly when it fails |
| `NandWrite.PaddedMeans` | mtd.c:389-396 | what is written of a file: all of it, and as many bytes of ones as fill its last page |
| `NandWrite.GoodMeans` | mtd.c:398-400 | a byte is good if and only if no bad block covers it |
| `DnsWire.NameSkipped` | resolv.c:92-107 | skipping a name, plain or ending in a pointer, lands exactly behind it |
| `DnsWire.NameFound` | resolv.c:92-107 | conversely whatever is skipped is labels, each with its length in front, and a zero or a pointer |
| `DnsWire.NameInBytes` | resolv.c:31-62 | a label and the two ends of a name byte by byte |
| `DnsWire.HeaderInBytes` | resolv.c:157-179 | the header of a message byte by byte |
| `DnsWire.RecordInBytes` | resolv.c:181-209 | a record byte by byte |
| `DnsWire.CutShort` | resolv.c:181-209 | a message cut short in a record is an error, and what follows is not looked at |
| `DnsWire.NotAnswers` | resolv.c:157-179 | nothing is read of a message that is too short, has another id, or is cut in its question |
| `DnsWire.RecordsRead` | resolv.c:181-209 | records are read in order and exactly the four-byte type-A ones count |
| `DnsWire.ResponseRead` | resolv.c:157-212 | of every well-formed response exactly the addresses are read, in order |
| `Resolv.LabelsNotEmpty` | resolv.c:31-62 | no label is empty or has a dot in it |
| `DnsWire.LabelsSplit` | resolv.c:31-62 | a dot splits a name into halves whose labels follow one another: all non-empty pieces are there, in order |
| `DnsWire.OnePiece` | resolv.c:31-62 | a piece without a dot is the one label, or none if it is empty |
| `Resolv.EncodeName` | resolv.c:31-62 | writes exactly the labels of the host; fails exactly when one is over 63 bytes or they do not fit |
| `Resolv.BuildQuery` | resolv.c:64-90 | `Query` for the host, or failure exactly when its name does not fit |
| `Resolv.QueryInBytes` | resolv.c:64-90 | the query byte by byte: the id high byte first, 01 00 (recursion desired), one question and no records, the name, and 00 01 00 01 (type A, class IN) |
| `Resolv.TwoLabels` | resolv.c:31-62 | the name a.bc byte by byte |
| `Resolv.QuerySkipped` | resolv.c:64-107 | skipping the name of a query lands in front of its last four bytes |
| `Resolv.Skip` | resolv.c:92-107 | the loop is the pure function, on any bytes |
| `Resolv.ParseResponse` | resolv.c:157-212 | on any bytes: the addresses told, and their count or -1 |
| `Resolv.Results.Add` | resolv.c:119-131 | the first eight addresses are kept |

## Left out

- System calls, sockets, poll, ptys, spawning and mounting: parameters or scripts, as said above.
- Argument parsing, usage text, progress and exit messages, the multicall macros.
- `Lz4.CompressFast`: destinations smaller than the bound, for which the source has a mode with limited output.
- LZ4 dictionaries, streaming contexts, partial decoding, limited or filled output, byPtr tables, and the variants for particular CPUs and byte orders.
- `Lz4Compress.CompressSequences`: which matches are taken is exact for any hash function, but how small the block gets is not stated; that depends on the hash.
- `Lz4Decompress.Decompress`: an error is -1 instead of the place where it was found; pointer overflow cannot happen on unbounded numbers.
- `Lz4Match.Count`: words are compared as eight bytes; the bit tricks that find the first differing byte are one function.
- `Blkwak.Walk.WalkSparse`: reads and writes of device and image succeed.
- `SparseWriter.SparseOut.PutRaw`: writes to the image file succeed.
- `SparseWriter.SparseOut.PutFill`: the same.
- `BlkCommands.Write`: fsync and dropping the caches are not part of the model; the checks of the command line that come before a walk are its preconditions.
- `BlkCommands.BufferSizeDoesNotMatter`: says nothing once a run of blocks is too long for one chunk; then the cuts depend on the buffer.
- `Tftp.Client.GetFile`: sending always succeeds; a transfer ends because the script does, not because tftp_recv's wait is bounded.
- `Tftp.Client.Transact`: sending always succeeds.
- `Tftp.Client.ReadBlock`: reading the local file succeeds.
- `Tftp.Client.PutFile`: reading the local file and sending succeed.
- `Readln.Reader.Readln`: a failing read other than an interruption is not modelled; an unterminated last line stays unread, as in the code.
- `Smolsh.RunLine`: what run_command does with a command, failing pipes, and signals that stop the loop.
- `Smolsh.ParseCmd`: the half-filled command left behind by a syntax error.
- `SmolshLoop.Shell`: signals that end the loop, and reads that fail.
- `Telnetd.Session.Pump`: opening the pty and starting getty; the session begins with its two descriptors.
- `Date.EpochRoundTrip`: numbers are unbounded; the range of long and time_t is not modelled.
- `Lonesha256.Hash.Fixed`: the block-finishing code, written out twice in the source, is one method here.
- `Lonesha256.Hash.Stream`: of the digest of a file shorter than announced nothing is stated; sha256sum.c prints none, because fewer bytes were read than asked for.
- `NandWrite.NandWrite`: reads and writes succeed, and an eraseblock is a whole number of pages.
- nanddump, flash_erase and flashcp in mtd.c: nanddump that starts inside a block looks at the bad-block state only at the next boundary.
- `Resolv.ParseResponse`: is_reply_to, timeouts and the choice of servers.
- dhcpc, ping, ip, ls, df, gpio, i2c, devmem, modules, getty, keeper, startup, su: mostly kernel calls, with little logic of their own; number parsing and path helpers beyond what TFTP needs.
