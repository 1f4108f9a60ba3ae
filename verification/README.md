# Models of the codecs, file systems and protocols of the virtual disk

The repository puts CP/M disks for a Z80 board on a PC: a board (the IOS
firmware) talks over SPI to an ESP8266, which talks to a server, and the server
comes with tools and libraries for disk images. This project models the parts
in which something has to be kept right over many steps, each in the form the
program has (in-place arrays, classes with fields, loops), proved against a
specification about which the theorems are:

- `Lzhuf*`, `LzText`, `LzCopy`, `Streams`: the Teledisk decoder, adaptive Huffman
  coding over a sliding window. The tree in three arrays stays valid, is
  optimal for its counts at every moment, and decoding is independent of how it
  is split into calls.
- `Squeeze*`, `Huffman`: the Squeeze compressor and expander, run lengths
  under a Huffman code. The round trip is complete, and no prefix code is shorter.
- `Blast*`: the PKWare decoder. Canonical codes, a buffered bit reader, and a
  window that stands for an unbounded history.
- `CpmDirectory`, `CpmFiles`, `CpmDrive`: the CP/M directory and its block bitmap,
  which agree over every run. `CpmBlocks`, `CpmLayout`, `CpmRead`, `CpmContent`: blocks
  on skewed sectors, reading with remembered places, and what a file is, said from the
  raw directory. `CpmWritten`, `CpmBytes`, `CpmPart`, `CpmDelivery`, `CpmWrite`,
  `CpmReadBack`: writing with partial sectors, what it does to entries, lengths and the
  bytes of all files, and reading it back. `CpmFsck`, `CpmChecker`: the checker, with
  its repairs, and what its verdict means.
- `Fat*`: the cursor of an open file and the directory search of Petit FatFs, over
  clusters laid end to end.
- `VirtDisk*`: the stop-and-wait protocol between board and ESP8266, with packets
  that arrive garbled.
- `Cfi*`, `Utf*`, `GetoptExchange`: the run-length codec of CFI images, the six
  Unicode converters, and the rotation of arguments.
- `Bits`, `LowBits`, `Division`, `Wrappers`: shared ground.

`dafny verify dfyconfig.toml` checks all of it.

## Assumptions

- Streams and devices are values: bits to be read are a list, files a sequence of
  bytes, the blocks a server will answer with a list of blocks. A read that fails
  is a value too (a missing sector, a refused output call).
- Shifts and masks on disjoint bits are written as division, remainder and sum; where
  masks stand for remainders this is proved (`Division.AndMask`).
- Integer widths: `freq` never exceeds 0x8000 (part of the invariant), counts of
  Squeeze are unbounded, sector and cluster numbers do not overflow 32 bits, and a
  bitmap word is unsigned.
- SPI: noise spares the command byte of a packet (of a write packet also offset and
  length), changes its checksum whenever it changes the packet, and does not touch
  the status register; the server always answers, with blocks of 1 to 512 bytes and
  after the last of them with none; a call reads or writes 32 bytes; reads and
  writes are separated by a seek; the script of noise is finite, because a reply
  that is garbled for ever is asked for again for ever.
- FAT: the sectors of a cluster are a power of two, and the directory and data areas do
  not start at sector 0.
- CP/M: at most 65536 blocks, at least one of them for the directory, a block being
  whole sectors and at most 16384 bytes; for the checker at most 16 logical extents in an
  entry, dividing its pointers evenly. What is proved of the lengths and the data written is
  about files whose entries have no block beyond what an entry covers, up to the 32
  megabytes that extent numbers count; what is proved of the data also assumes that an
  entry covers as many bytes as its logical extents have, without which positions share
  their blocks (`CpmContent.SharedExactly`).

## Findings

Seven properties one might expect do not hold of the code; each has a lemma with
an input, and one with the exact condition:

- A write through a file that has been deleted takes a block that no file will hold
  (`CpmFiles.StaleWrite`; exactly then, `CpmFiles.WrittenConsistent`).
- A write that begins at a sector of a block that is there, and ends within that sector,
  overwrites the rest of the sector with what the buffer happens to hold
  (`CpmReadBack.RestLost`; exactly then, `CpmReadBack.KeptWhatever`; in general
  `CpmReadBack.DataWritten`). A comment (cpmfs.c:1889-1892) says that the boundaries of an
  existing block have been read.
- A write that goes on from one logical extent to the next within an entry records the
  length with the number of the extent it began in (`CpmWritten.LengthLost`; exactly
  then, `CpmWritten.LengthRight`).
- On a disk with small blocks but more than 256 of them, an entry covers 8192 bytes but
  stands for 16384, and every second 8192 bytes are the first ones again
  (`CpmContent.SharedTd143`, after the definition td143ssdd8 at diskdefs_:757; exactly when,
  `CpmContent.SharedExactly`).
- The checker passes disks of type DR3 whose password entries share blocks
  (`CpmFsck.PasswordGap`; for no other type, `CpmFsck.VerdictMeans`; for one disk,
  `CpmFsck.PasswordsDecide`).
- Bytes that are no UTF-8 are taken for a character (`UtfRoundTrip.HoleAccepted`; exactly
  after ED and F4, `UtfRoundTrip.Accepted8`).
- An illegal number passed over before the target was exhausted is forgotten
  (`UtfText.NoteForgotten`; exactly when, `UtfText.Resumed`).

Where code and documentation disagree the code is followed: for an empty code the
table builder of the PKWare decoder returns zero, which is documented as "complete",
although decoding with it always fails (`BlastConstruct.EmptyCodeFails`).

## Model

| member | source | states |
|---|---|---|
| LzhufRebuild.Start | WiFi-VirtDisk-Server/src/libdsk/comptlzh.c:303-324 | the tree a decoder starts from is valid: counts sorted, each inner node counts what its pair counts, pairs at even places below their parent, parent links inverse to son links, every symbol at one leaf; every symbol counts one |
| LzhufRebuild.Update | WiFi-VirtDisk-Server/src/libdsk/comptlzh.c:371-403 | counting a symbol keeps a valid tree valid, across rebuilds too, and changes the counts of the symbols in exactly one way: all are halved first if the root was full, then that of the symbol grows by one |
| LzhufRebuild.Reconst | WiFi-VirtDisk-Server/src/libdsk/comptlzh.c:326-368 | rebuilding a valid tree gives a valid tree in which every symbol counts half of what it did, rounded up, and whose root has room again |
| LzhufRebuild.RootIsLeafTotal | WiFi-VirtDisk-Server/src/libdsk/comptlzh.c:303-403 | in every valid tree the count of the root is the sum of the counts of the symbols |
| LzhufTree.Climb | WiFi-VirtDisk-Server/src/libdsk/comptlzh.c:377-402 | raising the counts from a node to the root, with an exchange at each node, turns a tree in which only that node lags behind into a valid one, and changes the count of that symbol only |
| LzhufTree.SwapSums | WiFi-VirtDisk-Server/src/libdsk/comptlzh.c:384-400 | exchanging a node with the last node of the same count leaves all sums right but the one above it |
| LzhufDecoder.Decoder.StartHuff | WiFi-VirtDisk-Server/src/libdsk/comptlzh.c:303-324 | filling the three arrays in place gives the starting tree |
| LzhufDecoder.Decoder.Update | WiFi-VirtDisk-Server/src/libdsk/comptlzh.c:371-403 | the loop over the three arrays does to the tree what counting the symbol is specified to do |
| LzhufDecoder.Decoder.Reconst | WiFi-VirtDisk-Server/src/libdsk/comptlzh.c:326-368 | halving, pairing with insertion and relinking in place is the specified rebuilding |
| LzhufOptimal.LeavesAreSymbols | WiFi-VirtDisk-Server/src/libdsk/comptlzh.c:303-403 | in a valid tree every symbol has exactly one leaf below the root, and the leaves weigh what the symbols count |
| LzhufOptimal.AdaptiveTreeOptimal | WiFi-VirtDisk-Server/src/libdsk/comptlzh.c:371-403 | the code of a valid tree has the least weighted length, for the counts it holds, of all codes whose lengths satisfy Kraft's inequality |
| LzhufOptimal.NoPrefixCodeShorter | WiFi-VirtDisk-Server/src/libdsk/comptlzh.c:371-403 | no prefix code for all symbols has a smaller weighted length for the counts the tree holds |
| LzhufCoding.SymbolRoundTrip | WiFi-VirtDisk-Server/src/libdsk/comptlzh.c:406-427 | the bits on the way from a symbol's leaf to the root, reversed, are decoded as that symbol in every valid tree, whatever follows |
| LzhufCoding.PositionRoundTrip | WiFi-VirtDisk-Server/src/libdsk/comptlzh.c:429-450 | the code of a match position is read back as that position, and nothing more is read |
| LzhufDecoder.Decoder.DecodeChar | WiFi-VirtDisk-Server/src/libdsk/comptlzh.c:406-427 | walking down the arrays bit by bit decodes the specified symbol and leaves the specified tree and bits; -1 when the bits run out |
| LzhufDecoder.Decoder.DecodePosition | WiFi-VirtDisk-Server/src/libdsk/comptlzh.c:429-450 | reads the specified position from the table and the lower six bits |
| LzhufText.InStep | WiFi-VirtDisk-Server/src/libdsk/comptlzh.c:371-427 | a coder that keeps its own tree by the same updates stays in step with the decoder over any sequence of tokens |
| LzhufText.TextRoundTrip | WiFi-VirtDisk-Server/src/libdsk/comptlzh.c:371-526 | decoding what such a coder sent delivers the bytes that the tokens stand for over an unbounded history, including copies that overlap themselves |
| LzhufText.RequestsAgree | WiFi-VirtDisk-Server/src/libdsk/comptlzh.c:472-526 | however the bytes wanted are split into requests, the bytes delivered in all are the same |
| LzhufDecoder.Decoder.InitDecode | WiFi-VirtDisk-Server/src/libdsk/comptlzh.c:457-470 | the ring starts as sixty zero bytes and then spaces, and stands for that history |
| LzhufDecoder.Decoder.Decode | WiFi-VirtDisk-Server/src/libdsk/comptlzh.c:472-526 | one request, served from the ring buffer with a match pending between calls, delivers the next bytes of the text over the unbounded history, and the ring goes on holding its last 4096 bytes |
| SqueezeRle.RleRoundTrip | WiFi-VirtDisk-Server/src/libdsk/compsq.c:62-130 | expanding the codes of a byte string, escapes and runs included, gives back the byte string |
| SqueezeTree.CombineIs | WiFi-VirtDisk-Server/src/libdsk/compsq.c:151-193 | with two or more counts left there are a smallest and a second smallest, and hanging both below a new node leaves one count fewer |
| SqueezeCode.EveryCodeUsed | WiFi-VirtDisk-Server/src/libdsk/compsq.c:195-240 | whatever the arrays held before, the analysis of a file leaves a dictionary in which every code of the file hangs below the root, each node below a lower one |
| SqueezeCode.PathShort | WiFi-VirtDisk-Server/src/libdsk/compsq.c:284-324 | the path of a code has no more bits than there are nodes, so no bit is ever dropped |
| SqueezeFile.DecodeSymbol | WiFi-VirtDisk-Server/src/libdsk/compsq.c:522-546 | the path of a code leads the expander from the root to that code and back to the root, whatever follows |
| SqueezeFile.SqueezeRoundTrip | WiFi-VirtDisk-Server/src/libdsk/compsq.c:326-553 | expanding the file that was written, header, name, dictionary, bits and checksum, returns the text, for every text, the empty one included, every name without a zero byte and whatever the arrays held before |
| SqueezeExample.RunsCoded | WiFi-VirtDisk-Server/src/libdsk/compsq.c:62-130 | three equal bytes stay as they are, five become byte, mark and five, and a mark is followed by zero |
| SqueezeExample.LongRun | WiFi-VirtDisk-Server/src/libdsk/compsq.c:62-130 | a run is sent when it has 255 bytes, and the next byte begins a new one |
| SqueezeExample.EmptyFile | WiFi-VirtDisk-Server/src/libdsk/compsq.c:195-372 | the file of the empty text byte for byte: magic number, sum, name, one node with the end code on both sides, and its bit |
| SqueezeOptimal.DictionaryTree | WiFi-VirtDisk-Server/src/libdsk/compsq.c:151-240 | the dictionary is a tree with every used code at one leaf, and costs what merging the two smallest weights again and again costs |
| SqueezeOptimal.StreamLength | WiFi-VirtDisk-Server/src/libdsk/compsq.c:297-324 | the number of bits written is the weighted path length of the dictionary's tree |
| SqueezeOptimal.StreamIsOptimal | WiFi-VirtDisk-Server/src/libdsk/compsq.c:151-240 | the bit stream of a file is no longer than with any code for its counts whose lengths satisfy Kraft's inequality |
| SqueezeOptimal.NoPrefixCodeShorter | WiFi-VirtDisk-Server/src/libdsk/compsq.c:151-240 | no prefix code for the codes of the file gives a shorter bit stream |
| Huffman.KraftBound | WiFi-VirtDisk-Server/src/libdsk/compsq.c:151-240 | merging the two smallest weights again and again costs no more than any code whose lengths satisfy Kraft's inequality |
| Huffman.PrefixCodeIsKraft | WiFi-VirtDisk-Server/src/libdsk/compsq.c:151-240 | the lengths of every prefix code satisfy Kraft's inequality |
| SqueezeCompressor.Squeezer.HufSmallest | WiFi-VirtDisk-Server/src/libdsk/compsq.c:151-168 | the scan finds the specified slot: the first with the least positive count other than the one to skip, or -1 |
| SqueezeCompressor.Squeezer.RleStream | WiFi-VirtDisk-Server/src/libdsk/compsq.c:89-130 | streaming the file through the run counter sends exactly its codes and sums its bytes |
| SqueezeCompressor.Squeezer.Analyze | WiFi-VirtDisk-Server/src/libdsk/compsq.c:195-240 | counting and merging in the arrays gives the specified dictionary |
| SqueezeCompressor.Squeezer.HufEncode | WiFi-VirtDisk-Server/src/libdsk/compsq.c:297-324 | the bits gathered while climbing are written in reverse order: the path from the root |
| SqueezeCompressor.Squeezer.Compress | WiFi-VirtDisk-Server/src/libdsk/compsq.c:326-372 | writes exactly the specified file |
| SqueezeCompressor.Squeezer.Squeeze | WiFi-VirtDisk-Server/src/libdsk/compsq.c:381-391 | analysing and compressing never fails, and any expander gets the text back from what was written |
| SqueezeExpander.Unsqueezer.WrByte | WiFi-VirtDisk-Server/src/libdsk/compsq.c:437-483 | expanding one code in place changes the output and the pending run as specified; a run with nothing to repeat is an error |
| SqueezeExpander.Unsqueezer.Unsqueeze | WiFi-VirtDisk-Server/src/libdsk/compsq.c:485-553 | expands any file, well-formed or not, to what is specified: the text, or the error |
| BlastCode.KraftRemainder | WiFi-VirtDisk-Server/src/libdsk/blast.c:217-225 | the number of codes left over is what remains of 2^l after Kraft's sum, scaled to length l |
| BlastCode.DecodesCode | WiFi-VirtDisk-Server/src/libdsk/blast.c:129-175 | decoding inverts the canonical code: the code word of a symbol is read as that symbol and nothing more is read |
| BlastCode.CompleteDecodes | WiFi-VirtDisk-Server/src/libdsk/blast.c:129-175 | with a complete code any thirteen bits start with the code word of a symbol, and exactly that word is consumed |
| BlastConstruct.Construct | WiFi-VirtDisk-Server/src/libdsk/blast.c:191-242 | counts the lengths, returns the remainder (zero for an empty code, negative at the first length that is oversubscribed) and sorts the symbols by length, keeping their order within each length |
| BlastConstruct.TablesComplete | WiFi-VirtDisk-Server/src/libdsk/blast.c:298-320 | the three fixed tables are complete codes of 256, 16 and 64 symbols |
| BlastConstruct.EmptyCodeFails | WiFi-VirtDisk-Server/src/libdsk/blast.c:191-242 | for an empty code the remainder is zero all the same, but decoding always ends without a symbol |
| BlastDecoder.State.ReadN | WiFi-VirtDisk-Server/src/libdsk/blast.c:72-95 | the bit buffer delivers the next bits of the flat input, lowest first |
| BlastDecoder.State.DecodeSymbol | WiFi-VirtDisk-Server/src/libdsk/blast.c:129-175 | decoding bit by bit from the buffer is decoding from the flat list of bits; -9 exactly if there is no code |
| BlastCoding.TokenRead | WiFi-VirtDisk-Server/src/libdsk/blast.c:330-371 | the bits of a literal, a length and distance, or the end are read as that token |
| BlastCoding.CopyExpressible | WiFi-VirtDisk-Server/src/libdsk/blast.c:338-352 | with 4 to 6 dictionary bits a copy of length 2 can be coded exactly for distances from 1 to 256, a longer one exactly for those from 1 to 64 times two to the power of the dictionary bits |
| BlastCoding.DistanceInWindow | WiFi-VirtDisk-Server/src/libdsk/blast.c:338-352 | a distance that is read lies within that range, and so within the window |
| BlastCoding.Headers | WiFi-VirtDisk-Server/src/libdsk/blast.c:323-327 | the first two bytes decide between the answers -1 and -2 and going on, and a file that stops within them is answered with 2 |
| BlastCoding.CopyTooFar | WiFi-VirtDisk-Server/src/libdsk/blast.c:342-343 | a copy from before the beginning of the text is answered with -3, and what came before it stands |
| BlastExample.Inflates | WiFi-VirtDisk-Server/src/libdsk/blast.c:282-426 | one file all the way: A, I, a copy of length 2 at distance 2 and the end, in eight bytes, inflate to AIAI |
| BlastCoding.BlastRoundTrip | WiFi-VirtDisk-Server/src/libdsk/blast.c:282-380 | a compressed file of any tokens whose distances reach no further back than the text inflates to the text they stand for |
| BlastDecoder.State.CopyMatch | WiFi-VirtDisk-Server/src/libdsk/blast.c:353-370 | copying in chunks within the 4096-byte window, across its end and over what is being copied, appends the bytes that copying one by one from an unbounded history gives |
| BlastDecoder.State.Blast | WiFi-VirtDisk-Server/src/libdsk/blast.c:384-426 | what has been handed to the output function is a prefix of the inflated text, all of it if no call was refused; the error is that of the specification |
| CpmDirectory.TakenConsistent | WiFi-VirtDisk-Server/src/cpmtools/cpmfs.c:300-328 | giving a block to an empty slot of an entry keeps bitmap and directory in agreement exactly if the entry belongs to a file |
| CpmFiles.FilledConsistent | WiFi-VirtDisk-Server/src/cpmtools/cpmfs.c:1833-1839 | giving an entry a block where it has none keeps the disk consistent exactly if the entry belongs to a file or no block is free |
| CpmFiles.WrittenConsistent | WiFi-VirtDisk-Server/src/cpmtools/cpmfs.c:1807-1839 | writing a block keeps the disk consistent exactly if the file is still there or nothing can be allocated |
| CpmFiles.RunConsistent | WiFi-VirtDisk-Server/src/cpmtools/cpmfs.c:1482-1539 | over every run of creating, renaming and deleting files, reaching extents, filling slots and recording lengths, the bitmap is what would be recomputed, and the blocks held are distinct and in the data area |
| CpmFiles.StaleWrite | WiFi-VirtDisk-Server/src/cpmtools/cpmfs.c:1807-1839 | a finding: create a file, delete it and write through what was opened, and the bitmap no longer agrees with the directory |
| CpmDrive.Drive.AlvInit | WiFi-VirtDisk-Server/src/cpmtools/cpmfs.c:253-297 | the bitmap in words is recomputed from the directory |
| CpmDrive.Drive.AllocBlock | WiFi-VirtDisk-Server/src/cpmtools/cpmfs.c:300-328 | takes the first clear bit below the size of the disk, or changes nothing |
| CpmDrive.Drive.FindFileExtent | WiFi-VirtDisk-Server/src/cpmtools/cpmfs.c:425-439 | finds the first entry of the file from a place on, and for that extent if one is asked for |
| CpmDrive.Drive.CpmCreat | WiFi-VirtDisk-Server/src/cpmtools/cpmfs.c:1939-1976 | does to directory and bitmap what the operation is specified to do |
| CpmDrive.Drive.CpmUnlink | WiFi-VirtDisk-Server/src/cpmtools/cpmfs.c:1482-1505 | erases every entry of the file and recomputes the bitmap, or reports that there is none |
| CpmDrive.Drive.CpmRename | WiFi-VirtDisk-Server/src/cpmtools/cpmfs.c:1508-1539 | renames every entry of the file, keeping the attribute bits, unless the new name exists |
| CpmDrive.Drive.GetExtent | WiFi-VirtDisk-Server/src/cpmtools/cpmfs.c:1809-1829 | finds the extent of the file, or makes it in the first unused entry |
| CpmDrive.Drive.GetBlock | WiFi-VirtDisk-Server/src/cpmtools/cpmfs.c:1833-1843 | finds the block of a slot with one or two bytes per pointer, or allocates one |
| CpmFiles.CreateMeans | WiFi-VirtDisk-Server/src/cpmtools/cpmfs.c:1939-1976 | a file created has exactly one entry, the first unused one, named as asked and without blocks, and no other file gains or loses one |
| CpmFiles.RenameMeans | WiFi-VirtDisk-Server/src/cpmtools/cpmfs.c:1508-1539 | renaming hands exactly the entries of the file over to the new name, changes nothing else in them, and touches no other entry |
| CpmFiles.UnlinkMeans | WiFi-VirtDisk-Server/src/cpmtools/cpmfs.c:1482-1505 | deleting marks the entries of the file as unused and leaves all others as they are |
| CpmWritten.LengthRight | WiFi-VirtDisk-Server/src/cpmtools/cpmfs.c:1896-1922 | the length recorded is where the write ended exactly if no logical extent has begun in the last entry since it was looked up |
| CpmWritten.LengthLost | WiFi-VirtDisk-Server/src/cpmtools/cpmfs.c:1896-1922 | a finding: 20000 bytes written at once to an entry of two logical extents are recorded as 3616 |
| CpmPart.WritePart | WiFi-VirtDisk-Server/src/cpmtools/cpmfs.c:1853-1894 | what a block shares with other data is read first: afterwards the block has the data in their place and is otherwise as it was, or zero if it is new, but for the rest of a sector that was begun and not filled, which is what the buffer held; all other blocks are untouched |
| CpmBytes.WriteBytes | WiFi-VirtDisk-Server/src/cpmtools/cpmfs.c:1831-1894 | writing the block of one position of a file changes the bytes of that block of that file, and no byte of any other file |
| CpmBytes.DistinctBlock | WiFi-VirtDisk-Server/src/cpmtools/cpmfs.c:1833-1843 | on a consistent disk no other position of any file has the block that was filled |
| CpmWrite.FileWriter.CpmWrite | WiFi-VirtDisk-Server/src/cpmtools/cpmfs.c:1795-1930 | with extent and block remembered between blocks, a write is a run of the operations above; if the file is there the disk stays consistent, however the write ends. Then every position written has a block of its own, no other file is touched and no block lost, the length is recorded as `LengthRight` says, the data are where they belong, and all other bytes of all files are as before, but for what `DataWritten` names |
| CpmReadBack.DataWritten | WiFi-VirtDisk-Server/src/cpmtools/cpmfs.c:1795-1930 | after a write, position by position and for every file: the data between start and end, and otherwise what was there before, except that in a block that was there before the rest of a sector may be lost that the last part of the data begins and does not fill |
| CpmReadBack.KeptWhatever | WiFi-VirtDisk-Server/src/cpmtools/cpmfs.c:1853-1894 | after a write within one block the rest of the file is as before, whatever the buffer held, exactly if the block was not there before, or the data do not begin a sector, or they fill it |
| CpmReadBack.RestLost | WiFi-VirtDisk-Server/src/cpmtools/cpmfs.c:1853-1894 | a finding: after one byte written to the first block of a file, the 127 bytes behind it are what the buffer happened to hold |
| CpmReadBack.ReadsWritten | WiFi-VirtDisk-Server/src/cpmtools/cpmfs.c:1698-1930 | any stretch of what was written is read back as it was written |
| CpmReadBack.WriteThenRead | WiFi-VirtDisk-Server/src/cpmtools/cpmfs.c:1698-1930 | writing to a file of a disk in order and reading from the same place gives the data, as far as they were written |
| CpmBlocks.GenerateSkew | WiFi-VirtDisk-Server/src/cpmtools/cpmfs.c:1074-1096 | for every sector count and skew the search ends, the table is a permutation of the sectors, begins with sector 0, and each entry is the first sector still free from skew sectors behind the one before, wrapping round |
| CpmBlocks.OneSkewTable | WiFi-VirtDisk-Server/src/cpmtools/cpmfs.c:1074-1096 | sector count and skew determine the table |
| CpmBlocks.SkewMultiples | WiFi-VirtDisk-Server/src/cpmtools/cpmfs.c:1074-1096 | as long as the multiples of the skew do not repeat, they are the table |
| CpmBlocks.Ibm3740 | WiFi-VirtDisk-Server/src/cpmtools/cpmfs.c:1074-1096 | for 26 sectors and skew 6 the table is 0, 6, 12, 18, 24, 4, 10, ... 21 |
| CpmBlocks.BlocksOnDisk | WiFi-VirtDisk-Server/src/cpmtools/cpmfs.c:342-385 | all sectors of the blocks below the size lie on the disk |
| CpmBlocks.BlocksDisjoint | WiFi-VirtDisk-Server/src/cpmtools/cpmfs.c:342-420 | distinct blocks use distinct sectors |
| CpmBlocks.Device.ReadBlock | WiFi-VirtDisk-Server/src/cpmtools/cpmfs.c:342-385 | reads the wanted sectors of the block, through the skew table, and leaves the rest of the buffer alone; fails exactly for blocks outside the disk |
| CpmBlocks.Device.WriteBlock | WiFi-VirtDisk-Server/src/cpmtools/cpmfs.c:389-420 | afterwards the written sectors of the block read as what was written, and all other sectors of all blocks read as before |
| CpmLayout.PositionIs | WiFi-VirtDisk-Server/src/cpmtools/cpmfs.c:1733-1781 | slot, sector and offset of a position are its place in the bytes that the entry covers |
| CpmContent.EntryFound | WiFi-VirtDisk-Server/src/cpmtools/cpmfs.c:425-439 | the entry looked up for a position is the first in the directory with the name of the file, attribute bits aside, whose extent number says that it covers the position |
| CpmContent.EntryIsRead | WiFi-VirtDisk-Server/src/cpmtools/cpmfs.c:1698-1792 | reading within an entry gives the blocks of its pointers, run together in order |
| CpmContent.BlockIsRead | WiFi-VirtDisk-Server/src/cpmtools/cpmfs.c:1698-1792 | reading a whole block gives its sectors, one behind the other |
| CpmContent.SharedExactly | WiFi-VirtDisk-Server/src/cpmtools/cpmfs.c:1705-1734 | two positions share an entry and a place in its blocks exactly if an entry covers fewer bytes than its logical extents have |
| CpmContent.SharedTd143 | WiFi-VirtDisk-Server/src/cpmtools/cpmfs.c:749-750 | a finding: on a disk of 346 blocks of 1024 bytes, such as td143ssdd8, the second 8192 bytes of every 16384 are read as the first |
| CpmRead.FileReader.CpmRead | WiFi-VirtDisk-Server/src/cpmtools/cpmfs.c:1698-1792 | reading with extent and block remembered gives the bytes that looking up every byte afresh gives, zeros where extent or block is missing, up to the first block that cannot be read |
| CpmChecker.Checker.Fsck | WiFi-VirtDisk-Server/src/cpmtools/fsck.cpm.c:139-532 | the verdict is OK exactly if the directory was clean; every entry is left alone or repaired in one of the ways the checker has, all of them if the answer is always yes; whatever the user answers, a directory not reported as broken is clean in the end; without repairs nothing is changed |
| CpmChecker.Checker.CheckEntry | WiFi-VirtDisk-Server/src/cpmtools/fsck.cpm.c:157-465 | an entry is reported or repaired exactly if it is not good, and is good afterwards unless reported as broken |
| CpmChecker.Checker.CheckRecords | WiFi-VirtDisk-Server/src/cpmtools/fsck.cpm.c:264-292 | the record count is accepted exactly if it needs as many blocks as the logical extent has pointers in use |
| CpmFsck.NameCharIs | WiFi-VirtDisk-Server/src/cpmtools/cpmdir.h:16 | the characters a name may have, attribute bit aside: those that are printable, no lower case letters and none of eleven marks, and no space in front |
| CpmFsck.CleanIsSound | WiFi-VirtDisk-Server/src/cpmtools/fsck.cpm.c:467-531 | a disk of any type but DR3 that passes has its blocks in range, none used twice and no extent of a file twice |
| CpmFsck.CleanIsConsistent | WiFi-VirtDisk-Server/src/cpmtools/fsck.cpm.c:467-531 | such a disk, with its bitmap recomputed, is consistent for the file system |
| CpmFsck.VerdictMeans | WiFi-VirtDisk-Server/src/cpmtools/fsck.cpm.c:149-531 | a verdict of OK means this for all disks of a type exactly if the type is not DR3 |
| CpmFsck.PasswordsDecide | WiFi-VirtDisk-Server/src/cpmtools/fsck.cpm.c:397-447 | a disk of type DR3 that passes is sound exactly if its password entries hold blocks in range that no other entry holds; its extents are distinct exactly if those of its password entries are |
| CpmFsck.PasswordGap | WiFi-VirtDisk-Server/src/cpmtools/fsck.cpm.c:397-447 | a finding: a disk of type DR3 passes although a password entry, live for the file system, holds one block twice |
| FatVolume.Volume.ChainGood | S220718-R290823_IOS-Z80-MBC2/pff.cpp:349-409 | a cluster chain that has left the volume never comes back, so the last cluster decides for the whole chain |
| FatVolume.Volume.BytesAre | S220718-R290823_IOS-Z80-MBC2/pff.cpp:864-910 | what is read is an array of bytes up to the first byte that cannot be read |
| FatVolume.Volume.BytesSplit | S220718-R290823_IOS-Z80-MBC2/pff.cpp:864-910 | what is read does not depend on how the request is split |
| FatLayout.ClustersEndToEnd | S220718-R290823_IOS-Z80-MBC2/pff.cpp:398-409 | the data area begins with cluster 2, and the clusters lie end to end |
| FatLayout.ContiguousFile | S220718-R290823_IOS-Z80-MBC2/pff.cpp:864-910 | a file in consecutive clusters is its sectors run together, from (first cluster - 2) * cluster size behind the start of the data area on |
| FatLayout.LinkIs16 | S220718-R290823_IOS-Z80-MBC2/pff.cpp:347-389 | the link of a cluster on FAT16 is the two bytes at twice its number in the FAT, low byte first |
| FatLayout.LinkIs32 | S220718-R290823_IOS-Z80-MBC2/pff.cpp:347-389 | the link of a cluster on FAT32 is the lower 28 bits of the four bytes at four times its number, lowest first |
| FatFile.FatFs.PfLseek | S220718-R290823_IOS-Z80-MBC2/pff.cpp:989-1030 | the cursor is clipped to the size and is the same from wherever it was, whether the chain is followed from the current cluster or from the start; it fails exactly if the byte before it lies in no cluster; it ends on every FAT |
| FatFile.FatFs.PfRead | S220718-R290823_IOS-Z80-MBC2/pff.cpp:864-910 | reads the bytes of the file from the cursor on, up to the first that cannot be read, and fails exactly if there is one |
| FatLayout.EntryIsBytes | S220718-R290823_IOS-Z80-MBC2/pff.cpp:434-533 | entry i of a directory is the 32 bytes from 32 * i on of its clusters |
| FatDir.Table.OneEnd | S220718-R290823_IOS-Z80-MBC2/pff.cpp:509-533 | how a search ends is settled by the entries: in one way and at one entry |
| FatDir.Dir.DirFind | S220718-R290823_IOS-Z80-MBC2/pff.cpp:434-533 | the search passes over the entries in order and ends at the first that settles it, found, over or failed, on every FAT, cyclic or not |
| VirtDiskLink.OneByteDetected | S220718-R290823_IOS-Z80-MBC2/virtDisk.cpp:320-345 | one changed byte anywhere in a packet is always rejected |
| VirtDiskLink.AnyNoise | S220718-R290823_IOS-Z80-MBC2/virtDisk.cpp:320-345 | anything with a wrong sum can arrive in place of a packet, so the theorems about the protocol hold for every noise that a checksum detects |
| VirtDiskSlave.Requests | S220718-R290823_IOS-Z80-MBC2/virtDisk.cpp:306-615 | the requests as they are on the wire, number, operands and checksum |
| VirtDiskSlave.Slave.RdFile | WiFi-VirtDisk-Client/virtDisk.cpp:214-342 | a good packet prepares the bytes wanted from the cursor, fetching a block first if none is buffered; nothing is skipped, and a bad packet changes nothing |
| VirtDiskSlave.Slave.RdNext | WiFi-VirtDisk-Client/virtDisk.cpp:344-386 | the cursor moves only when the packet is good |
| VirtDiskSlave.Slave.WrFile | WiFi-VirtDisk-Client/virtDisk.cpp:388-512 | a chunk goes behind what is committed, even before its checksum is known |
| VirtDiskSlave.Slave.WrNext | WiFi-VirtDisk-Client/virtDisk.cpp:514-595 | moving on commits the chunks, and sends the block when it is full |
| VirtDiskSlave.Slave.SeekFile | WiFi-VirtDisk-Client/virtDisk.cpp:597-664 | what was buffered is dropped, even if the packet was garbled |
| VirtDiskMaster.Master.VdRead | S220718-R290823_IOS-Z80-MBC2/virtDisk.cpp:306-433 | over every script of garbled packets a read that succeeds delivers exactly the bytes at the cursor, once, and one that fails leaves the cursor; up to four garbled packets never make it fail |
| VirtDiskMaster.Master.VdWrite | S220718-R290823_IOS-Z80-MBC2/virtDisk.cpp:436-553 | a write that succeeds commits its bytes once, behind the earlier ones, and one that fails commits nothing |
| VirtDiskMaster.Master.VdLseek | S220718-R290823_IOS-Z80-MBC2/virtDisk.cpp:556-615 | three tries; the stream starts at the offset, and bytes not yet sent are dropped |
| VirtDiskSector.Board.ReadSect | S220718-R290823_IOS-Z80-MBC2/S220718-R290823_IOS-Z80-MBC2.ino:2008-2037 | the processor gets the bytes of the selected sector up to the first error and zeros from there on |
| VirtDiskSector.Board.WriteSect | S220718-R290823_IOS-Z80-MBC2/S220718-R290823_IOS-Z80-MBC2.ino:1410-1444 | a sector is sent to the server once and whole, or not at all |
| VirtDiskSector.Board.LoadFile | S220718-R290823_IOS-Z80-MBC2/S220718-R290823_IOS-Z80-MBC2.ino:960-970 | a file is loaded to its end, without a byte lost or repeated |
| CfiTrack.TrackRoundTrip | WiFi-VirtDisk-Server/src/libdsk/drvcfi.c:65-118 | the blocks of a track of up to 0x7FFF bytes expand to the track |
| CfiTrack.WireShort | WiFi-VirtDisk-Server/src/libdsk/drvcfi.c:277-350 | the compressed track is at most two bytes longer than the track |
| CfiCodec.NumberSame | WiFi-VirtDisk-Server/src/libdsk/drvcfi.c:258-273 | finds the length of the run, at most 0x7FFF |
| CfiCodec.CfiSaveTrack | WiFi-VirtDisk-Server/src/libdsk/drvcfi.c:277-350 | writes the length and the blocks, and never beyond the buffer of four bytes more than the track |
| CfiCodec.CfiUncompress | WiFi-VirtDisk-Server/src/libdsk/drvcfi.c:65-118 | the sizing pass and the data pass accept the same inputs, agree on the length, and the data pass writes the bytes the blocks stand for |
| CfiCodec.CfiLoadTrack | WiFi-VirtDisk-Server/src/libdsk/drvcfi.c:122-190 | loads exactly the tracks that are long enough and well-formed, and reports the others |
| CfiCodec.SavedLoads | WiFi-VirtDisk-Server/src/libdsk/drvcfi.c:122-350 | what is saved can be loaded again, whatever follows it in the file |
| UtfRoundTrip.WellFormedConverts | WiFi-VirtDisk-Server/src/SimpleIni/ConvertUTF.c:61-520 | well-formed text converts from each form into each other, strictly or leniently |
| UtfRoundTrip.ThereAndBack | WiFi-VirtDisk-Server/src/SimpleIni/ConvertUTF.c:61-520 | well-formed text converted and converted back is unchanged (section 3 of RFC 3629, section 2.1 of RFC 2781) |
| UtfRoundTrip.Accepted16 | WiFi-VirtDisk-Server/src/SimpleIni/ConvertUTF.c:110-160 | what a strict conversion accepts as UTF-16 is well-formed and comes back unchanged |
| UtfRoundTrip.Accepted8 | WiFi-VirtDisk-Server/src/SimpleIni/ConvertUTF.c:295-520 | what a strict conversion accepts as UTF-8 gives well-formed text, and comes back unchanged exactly if no ED or F4 is followed by a byte below 80 |
| UtfRoundTrip.HoleAccepted | WiFi-VirtDisk-Server/src/SimpleIni/ConvertUTF.c:303-310 | a finding: ED 41 80 is accepted, and comes back as EC 81 80 |
| UtfRoundTrip.Examples | WiFi-VirtDisk-Server/src/SimpleIni/ConvertUTF.c:61-520 | an example of section 7 of RFC 3629 and one of section 5 of RFC 2781 |
| UtfText.TrailingIs | WiFi-VirtDisk-Server/src/SimpleIni/ConvertUTF.c:167-183 | how many bytes follow a first byte is said by the ones it begins with |
| UtfText.Substituted | WiFi-VirtDisk-Server/src/SimpleIni/ConvertUTF.c:61-106 | what each converter makes of a surrogate or of a number above 10FFFF: stop, FFFD, three bytes, or nothing but a note |
| UtfText.RanOut | WiFi-VirtDisk-Server/src/SimpleIni/ConvertUTF.c:61-520 | a call that reports the target as exhausted stopped before the end of the source, and the whole text would not have fitted, unless there was no room at all |
| UtfText.NoSurrogate8 | WiFi-VirtDisk-Server/src/SimpleIni/ConvertUTF.c:295-318 | no surrogate is ever read from UTF-8, so the tests for one after it never succeed |
| UtfText.ConvertedWhole | WiFi-VirtDisk-Server/src/SimpleIni/ConvertUTF.c:61-520 | a call that does not run out of room writes the whole text and answers for all of it |
| UtfText.Resumed | WiFi-VirtDisk-Server/src/SimpleIni/ConvertUTF.c:61-520 | going on after the target was exhausted writes what one call writes; the answer is that of one call exactly if it is not OK or no number above 10FFFF was passed over before |
| UtfText.NoteForgotten | WiFi-VirtDisk-Server/src/SimpleIni/ConvertUTF.c:409-458 | a finding: for 110000 41 one call answers that the source is illegal, two calls in the end that all is well |
| UtfConvert.ConvertUTF32toUTF16 | WiFi-VirtDisk-Server/src/SimpleIni/ConvertUTF.c:61-106 | writes the units that the steps taken stand for, stops where there is no room, the source is short or illegal, or at its end, and touches nothing else in the target |
| UtfConvert.ConvertUTF16toUTF32 | WiFi-VirtDisk-Server/src/SimpleIni/ConvertUTF.c:110-160 | writes the units that the steps taken stand for, stops where there is no room, the source is short or illegal, or at its end, and touches nothing else in the target |
| UtfConvert.ConvertUTF16toUTF8 | WiFi-VirtDisk-Server/src/SimpleIni/ConvertUTF.c:214-280 | writes the units that the steps taken stand for, stops where there is no room, the source is short or illegal, or at its end, and touches nothing else in the target |
| UtfConvert.ConvertUTF8toUTF16 | WiFi-VirtDisk-Server/src/SimpleIni/ConvertUTF.c:336-405 | writes the units that the steps taken stand for, stops where there is no room, the source is short or illegal, or at its end, and touches nothing else in the target |
| UtfConvert.ConvertUTF32toUTF8 | WiFi-VirtDisk-Server/src/SimpleIni/ConvertUTF.c:409-458 | writes the units that the steps taken stand for, stops where there is no room, the source is short or illegal, or at its end, and touches nothing else in the target |
| UtfConvert.ConvertUTF8toUTF32 | WiFi-VirtDisk-Server/src/SimpleIni/ConvertUTF.c:462-520 | writes the units that the steps taken stand for, stops where there is no room, the source is short or illegal, or at its end, and touches nothing else in the target |
| UtfConvert.IsLegalUtf8 | WiFi-VirtDisk-Server/src/SimpleIni/ConvertUTF.c:295-318 | the cascade of tests accepts exactly the sequences it is meant to |
| GetoptExchange.RotatedSegments | WiFi-VirtDisk-Server/src/cpmtools/getopt.c:140-147 | after the exchange the options come first and the non-options behind them, both in order, and nothing else has moved |
| GetoptExchange.Rotate | WiFi-VirtDisk-Server/src/cpmtools/getopt.c:158-226 | swapping the shorter segment with the far end of the longer one, again and again, ends and rotates the two segments in place |
| GetoptExchange.GetoptData.Exchange | WiFi-VirtDisk-Server/src/cpmtools/getopt.c:158-234 | the arguments are rotated, and the fields describe where the non-options are now |

## Left out

- `next_word` of the Teledisk decoder: its block reads near the end of the input; bits come from a list, and once it is exhausted all reads fail. Opening the file and its CRC are not part of this model.
- File errors and memory exhaustion in Squeeze and CFI, and the LDBS store behind CFI tracks.
- Squeeze dictionary nodes outside the array: where the C code reads outside, the model reports an error of its own.
- LzhufDecoder.Decoder.Decode: copying is modelled byte by byte where the code runs a loop inside a call; the state between calls is the same.
- BlastDecoder.State.DecodeSymbol: the two nested loops over bits and bytes are one loop here.
- CpmWrite.FileWriter.CpmWrite: time stamps, the size kept in memory and errors of the device are not modelled; of a file that is not in order, or is gone, only the run of operations and what it keeps is claimed; where a torn sector lies behind several blocks, what it becomes is left open.
- CpmRead.FileReader.CpmRead: the file's size is a parameter; password and label pseudo-files are not modelled.
- CpmDrive.Drive.CpmCreat: splitting a name into user, name and extension, time stamps and passwords are not modelled.
- CpmChecker.Checker.Fsck: warnings (large .COM files, time stamps), the statistics and the end of the user's input are left out; a low extent byte of 128 or more, for which the code reads outside the entry, is taken as unsigned, the entry being reported in any case.
- CpmFsck.GoodRecords: assumes logical extents that divide the pointers evenly; other disk definitions are not modelled.
- cpmStatFS, cpmAttrSet, globbing, disk definitions and time stamps: only easy members.
- FatFile.FatFs.PfLseek: 32-bit overflow of sector numbers is not modelled.
- pf_write (rounding the cursor down may leave it on a cluster boundary with the wrong cluster), pf_mount, pf_opendir and path splitting.
- VirtDiskMaster.Master.VdRead: the number of bytes reported is not modelled when the call fails (the code leaves it unset); time-outs while the slave is busy are left out.
- VirtDiskMaster.Master.VdWrite: noise that a checksum does not detect is not modelled.
- VirtDiskSector.Board.ReadSect: the 512 exchanges of the opcode are taken 32 at a time; selecting disk, track and sector only as the condition it leaves.
- CfiTrack.TrackRoundTrip: for tracks above 0x7FFF bytes a plain block may not fit its header; the program does not make such tracks.
- UtfText.Resumed: the source is given whole; a source that grows between calls is not modelled.
- Other compressors (compdskf.c), other image drivers, CRC tables, terminal, network and interrupt code: hardware, formats without code here, or only easy members.
