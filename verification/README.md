# Verified models of the support library

A Dafny model of the parts of the C support library whose correctness is not
obvious from reading them, with proofs. Every file is one module; loops over
buffers and objects with fields are methods and classes with invariants, and
each is tied to a function or a predicate that says what it computes, about
which the lemmas speak.

- `Bits`, `Crc32c`, `CrcVectors`: exclusive-or on naturals, and the CRC-32C of section
  12.1 of RFC 3720 defined one bit at a time, with the slicing-by-8 routine proved to
  compute it. The tables are defined by their recurrence; `CrcVectors` has the entries
  that fix them, and values of the CRC, in numbers.
- `Stdio`: the FILE under a stream, as bytes and a position. `Wrappers` and `Seqs`
  are an option type and a law of sequences.
- `CrcFormat`, `CrcBytes`, `CrcLayout`, `CrcOutput`, `CrcRepair`, `FcrcStream`,
  `CrcRuns`: the stream that stores data in blocks of 2^bits bytes, each with its
  length and CRC, and a parity block at the end. `CrcFormat` is the file format and
  the algebra of its parity, and `CrcBytes` says for every byte of a file what
  number it is; `FcrcStream` has the stream object, whose invariants `Reading` and
  `Writing` hold from the opening on after every call that succeeds, and after a
  seek to a negative place; about the state behind a read that returned -1 or a
  seek that failed with EIO nothing is promised. `CrcLayout` and `CrcOutput` are
  what a reader expects and what a writer has produced; `CrcRepair` is the scan
  that repairs one block; `CrcRuns` is whole runs.
- `Paths`, `CleanPathMethod`, `RelPath`, `PathRuns`: path clean-up, relative paths
  and concatenation.
- `Shell`, `ShellMethods`: shell quoting and splitting.
- `U32Table`, `U32Hash`: the hash table with linear probing.
- `MemTable`, `MemHash`: the hash table with linked chains.
- `WebEncode`, `HashStr`, `HashFile`, `HashFileMethods`, `Base64`: text codecs.
  `CodecText` and `Base64Text` say which characters they write and read.
- `Glob`, `GlobText`: matching a name against a pattern, as a machine over its tokens
  that is compared with what the pattern means; `GlobText` begins with its characters.
- `VzipFormat`, `VzipBytes`, `Vzip`, `VzipRuns`: the seekable container of compressed
  blocks, over any lossless codec, and the numbers its bytes are.

`dafny verify dfyconfig.toml` checks everything.

## Where the code and its promises part

Each of these is proved, with the exact condition under which the promise holds.

- `CrcRead`: a read of 0 bytes in the middle of the data reads the rest of the
  file away, and the data after it cannot be read before the next seek.
- `CloseReader`: the checking close does not look behind the parity block, so it
  accepts every file that begins as it was written (`ByteBehind`).
- `CompleteExactly`: the file is never shortened, so an append that ends in fewer
  blocks than before leaves old blocks behind the new parity block. A sequential
  read does not see them (`AppendAndRead`), but a seek that needs the size looks for
  it in the block before the last of the file, and finds it exactly if there are no
  such blocks (`SizeExactly`, `SeekEndAfterAppend`).
- `PartialAppend`: the parity of an appended file is right exactly if the blocks
  that were not read before the write cancel out. These are the blocks behind the one
  of the last byte read (`Unread`); reading until a read returns 0 leaves none, and
  `HalfRead` is a run that does not.
- `CloseWriter`: closing ignores that the block to be rewritten could not be read
  back, writes its rest and a parity block wherever reading or the scan for errors
  left the file, and returns 0.
- `CleanNeverLonger`: the empty path becomes "." and a drive letter by itself gets a
  slash, so "never longer" fails for these and for no other path.
- `CleanIdempotent`: "./c:./x" becomes "c:./x", which is then taken for a drive
  letter and a "."; cleaning twice differs from cleaning once exactly for paths whose
  first surviving name is of this kind, and never without a colon.
- `RelativeLeadsToPath`: cleanPath() takes a colon behind the first slash for a drive
  letter too, so "/:" and paths from bases like "/:a" lead elsewhere.
- `OriginalStringsReturned`: an empty string quotes to nothing and is lost, and a
  string with a backquote but none of the quoting characters stays unquoted and
  makes the splitter exit.
- `BinaryField`: its comment speaks of lines longer than 256 characters; every line
  but the first is measured with the newline in front of it.
- `RoundTripExactly`: a key that begins with `@` is written as a line that reads as
  data. A value that is not text is followed, in every line of base64, by an empty
  line, as the encoder and its caller both end the line; base64_decode() refuses it,
  and the reader takes 256 bytes that were never set. Tables with such a key or such
  a value, and only these, are not sure to come back.
- `Base64.RoundTrip`: no bytes encode to no text, which decoding refuses; and a
  padded last block needs room for all its three bytes.
- `DecodeStops`: an escape of one digit is accepted, but two characters are skipped
  behind it. Right in front of a stop it steps over the stop, so `%5` at the end of
  the text leaves the text, and `%5&` goes on decoding into a buffer that was
  allocated for the bytes in front of the `&` (`ShortEscapes`).
- `AgreesExactly`: a pattern that ends in two stars or more does not match where
  the stars would have to match nothing; an inverted bracket accepts the NUL at the
  end of the text, a backslash at the end of the pattern escapes it, and a bracket
  that begins with its `]` or has a `-` in front of it is read on behind the end of
  the pattern (`BrokenPatterns`).
- `SeekAndRead` and `LoseBlock`: reading at the end drains the file without
  updating the offset that zipRead() compares with the table, so a stream that
  returns to the block it stood at says that it is at the end, and has then skipped
  that block. As its own offset was set by the seek, the same seek once more is
  taken for nothing to do, and reading goes on with the next block. A refused seek
  leaves the refused place as the stream's offset, with the same effect. A negative
  place drops the table, and reading goes on where the file happens to stand
  (`SeekBelow`). A place inside the last block or behind it is taken for the end, not
  refused (`ZipSeek`).

## Model

| member | source | states |
|---|---|---|
| `Crc32c.SoftwareCrc32c` | utils/crc32c.c:1116-1186 | for every start value, length and alignment the byte prologue, the 8-byte slicing loop and the tail compute the CRC that is defined one bit at a time, of which `KnownCrcs` gives values |
| `Crc32c.TableIsShift` | utils/crc32c.c:1141-1179 | table k, built by the recurrence from table k-1, is what a byte does to the register when k more zero bytes follow it |
| `Crc32c.Slice8IsRegister` | utils/crc32c.c:1149-1176 | the eight table look-ups of one round equal 64 single-bit steps over the eight bytes |
| `Crc32c.CrcComposes` | utils/crc32c.c:1116-1186 | a CRC continued over a second piece is the CRC of both pieces together, on which the block layer relies |
| `Crc32c.BurstDetected` | utils/crc32c.c:1116-1186 | two messages that differ only within four consecutive bytes have the same CRC exactly when they are equal |
| `Crc32c.SealedBurstDetected` | utils/crc32c.c:1116-1186 | the same with the CRC stored behind the message: damage to four consecutive bytes, some or all of them in the CRC, never gives another message with its right CRC |
| `CrcVectors.SingleBits` | utils/crc32c.c:566-630 | the entries of the first table for the eight single bits, in numbers |
| `CrcVectors.TableLinear` | utils/crc32c.c:566-1088 | the entry of an exclusive-or is the exclusive-or of the entries, in all eight tables, so that the single bits fix every entry |
| `CrcVectors.KnownCrcs` | utils/crc32c.c:1116-1186 | the CRC-32C of four bytes 0xFF and of these with one more byte, in numbers |
| `CrcFormat.HeaderParses` | utils/fopen_crc.c:136-156 | what is printed for a block size is read as that size, whatever bytes follow it, by a conversion that also takes white space, a sign and fewer digits |
| `CrcFormat.Openings` | utils/fopen_crc.c:136-156 | which of the files that begin with "CR", a letter and a number of three digits are in the old format, which in the current one with blocks of 2^number bytes, and with which the library stops on an assertion |
| `CrcFormat.ParityIsZero` | utils/fopen_crc.c:26-58 | all bodies of a closed file, parity block included, have exclusive-or zero |
| `CrcFormat.ParityBlockUnique` | utils/fopen_crc.c:53-55 | a block makes the whole parity zero exactly when it is the exclusive-or of the others |
| `CrcFormat.ClosedLength` | utils/fopen_crc.c:26-72 | a closed file has floor((len + 8) / datasz) + 2 blocks of 2^bits bytes |
| `CrcFormat.SuffixIsPrefix` | utils/fopen_crc.c:309-353 | in a file of zero parity the exclusive-or from any block to the end equals the exclusive-or of the blocks before it |
| `CrcFormat.OthersGiveTheMissingBody` | utils/fopen_crc.c:674-739 | in a file of zero parity any body is the exclusive-or of all others |
| `CrcFormat.BlocksMakeImage` | utils/fopen_crc.c:26-58 | a file of the right size whose blocks are the sealed bodies is the image of these bodies |
| `CrcFormat.StreamSlice` | utils/fopen_crc.c:26-45 | cutting the data in blocks, eight bytes less in the first, loses and repeats nothing |
| `CrcBytes.LaidOutExactly` | utils/fopen_crc.c:26-72 | a file is the closed file of its data exactly if it is laid out as the format comment says, byte for byte: "CRc 0dd" and a newline, the data cut into 2^bits - 6 bytes and padded with zeros, the number of data bytes in each block low byte first, the exclusive-or of all bodies in the parity block, and behind every body its CRC low byte first |
| `CrcLayout.Layout.GoodMakesClosed` | utils/fopen_crc.c:355-419 | a file whose blocks up to the parity block are as the stream expects, with zero parity, begins with the closed file of its data, whatever stands behind it |
| `CrcLayout.Layout.AllGoodMeansClosed` | utils/fopen_crc.c:395-416 | all blocks good and the running exclusive-or zero hold together exactly for the files that begin with what was written |
| `CrcLayout.Layout.SeekTarget` | utils/fopen_crc.c:183-203 | the block arithmetic with its eight-byte skew finds the one block that holds an offset |
| `CrcLayout.Layout.OffInjective` | utils/fopen_crc.c:183-203 | no two blocks begin at the same stream offset, so comparing offsets compares blocks |
| `CrcLayout.Layout.AppendXor` | utils/fopen_crc.c:326-353 | what a read from block k to any later block accumulates stands, up to a known defect, for the blocks before k |
| `CrcLayout.Layout.NoDefect` | utils/fopen_crc.c:326-353 | after a read to the very end of a sound file that defect is zero |
| `CrcLayout.Layout.StepKnown` | utils/fopen_crc.c:205-295 | among the blocks of a file that was made from some data that step yields exactly the data of the block, the size at the short block and 0 behind it, and fails only at a bad block |
| `CrcLayout.Layout.SizeExactly` | utils/fopen_crc.c:501-533 | the size that the block before the last tells is the size of the data exactly if nothing stands behind the parity block |
| `CrcOutput.OutputGrows` | utils/fopen_crc.c:455-497 | more data keeps all blocks already written and the unfinished one |
| `CrcOutput.OutputSeals` | utils/fopen_crc.c:467-490 | the partial CRC and exclusive-or, continued to the end of a block, seal that block |
| `CrcOutput.LastBodySeals` | utils/fopen_crc.c:600-619 | padding, length and CRC at close make the last, short block |
| `CrcOutput.LastParity` | utils/fopen_crc.c:620-624 | the exclusive-or at close is the parity of all bodies combined with what it was off by at the start |
| `FcrcStream.Fcrc.FopenCrc` | utils/fopen_crc.c:123-181 | a stream at offset 0 whose invariant holds exactly for a header of the current format with any of its block sizes; null without a header, and where the library takes the file for the old format or stops on an assertion |
| `FcrcStream.Fcrc.SeekBlock` | utils/fopen_crc.c:183-203 | moves to the block of the offset, file position and block offset staying in step |
| `FcrcStream.Fcrc.TakeBlock` | utils/fopen_crc.c:232-275 | reads one block: accepted exactly when it is whole and its CRC is right, and then added to the exclusive-or |
| `FcrcStream.Fcrc.ReadBlock` | utils/fopen_crc.c:205-295 | at any block of any file, as long as the size is not known or lies in front of the block: the step that the CRC and the length field of the block determine, an empty block reading the next one as well; -1 exactly where one of them fails, with the file position and the exclusive-or as the scan of the whole file leaves them |
| `FcrcStream.Fcrc.ReadKnown` | utils/fopen_crc.c:205-295 | the data of the next block, 0 at the end with the parity block read as well, 0 ever after; -1 only at a bad block |
| `FcrcStream.Fcrc.ReadAfterSeek` | utils/fopen_crc.c:309-324 | starts a new exclusive-or at the block of the offset, for a writer always and for a reader only from block 0 |
| `FcrcStream.Fcrc.CrcRead` | utils/fopen_crc.c:355-419 | returns exactly the next bytes of the data whatever the sizes; 0 exactly at the end or for a read of length 0, which then skips the rest; an undamaged file never fails, and where another one does no more than a block in front of the bad one is lost; a whole pass proves the parity; the next block is a function of the bytes read and the room that was left |
| `FcrcStream.Fcrc.FileSize` | utils/fopen_crc.c:501-533 | for every file of whole blocks: the size that the CRC and the length field of the block before the last tell, or failure; with nothing behind the parity block that is the size of the data, or the file is damaged |
| `FcrcStream.Fcrc.CrcSeek` | utils/fopen_crc.c:535-589 | SEEK_SET and SEEK_END land on the target, clamped to the end; a negative target is refused and the offset kept; a seek that has to find the size in a file with blocks behind the parity block goes by the size found there |
| `FcrcStream.Fcrc.CloseReader` | utils/fopen_crc.c:625-647 | with checking on, 0 exactly when the file begins byte for byte with what was written, for every file, cut off anywhere or longer, in which a block up to the parity block that passes its CRC is the one written (`Frames`; see `DamageIsFramed`) |
| `FcrcStream.Fcrc.WriteAfterSeek` | utils/fopen_crc.c:326-353 | keeps the part of the block in front of the offset and turns the exclusive-or of the blocks read into that of the blocks kept |
| `FcrcStream.Fcrc.CompleteBlock` | utils/fopen_crc.c:467-490 | length and CRC of a full block; `CrcBytes.LaidOutExactly` says which bytes these are |
| `FcrcStream.Fcrc.CrcWrite` | utils/fopen_crc.c:426-499 | the content grows by exactly the bytes written, in any pieces; the blocks in front of the pending one are in the file as `CrcBytes.LaidOutExactly` says |
| `FcrcStream.Fcrc.CloseWriter` | utils/fopen_crc.c:591-624 | always returns 0; if the last block can be read back, the file ends in the short block and the parity block of the whole content, and else it says which bytes are written where (`Littered`) |
| `FcrcStream.Fcrc.CheckVerify` | utils/fopen_crc.c:674-739 | the scan counts the bad blocks and is left with the exclusive-or of the good ones and a file position that depends on their number; with one bad block it reports the differing bytes |
| `CrcRepair.ScanFindsBody` | utils/fopen_crc.c:697-712 | with one bad block the exclusive-or of the others is the original body of the bad one |
| `CrcRepair.PatchRestores` | utils/fopen_crc.c:718-736 | putting the reported bytes at the reported offsets turns the block found into the block expected |
| `CrcRepair.OneBlockRepair` | utils/fopen_crc.c:674-739 | for every closed file and every single bad block, parity block included, the scan names the block and restores its body |
| `CrcRepair.BurstIsBad` | utils/fopen_crc.c:267-275 | damage to at most four consecutive bytes of a block, its CRC included, always makes the block fail |
| `CrcRuns.WriteFile` | utils/fopen_crc.c:426-624 | a new file written in any pieces is the closed file of the joined data, laid out byte for byte as the format says |
| `CrcRuns.ReadAndClose` | utils/fopen_crc.c:355-647 | from any file in which a block that passes its CRC is the one written, reads return data of good blocks only, piece by piece; they find the end, and the checking close returns 0, only in a file that begins as it was written, and fail only at the end of the data or no more than a block behind what they returned |
| `CrcRuns.RoundTrip` | utils/fopen_crc.c:212-647 | written in any pieces and read in any sizes the data comes back, all of it once a read returned nothing, then nothing forever, and the checking close returns 0 |
| `CrcRuns.ReadWhole` | utils/fopen_crc.c:205-647 | from any file that begins with a closed file, reads in any sizes return its data, all of it once a read returned nothing, then nothing forever, and the checking close returns 0 |
| `CrcRuns.DamageIsFramed` | utils/fopen_crc.c:267-275 | a closed file cut off anywhere or with anything behind it, damaged in at most four consecutive bytes of every block, holds no changed block that passes its CRC |
| `CrcRuns.ReadDamaged` | utils/fopen_crc.c:355-647 | from such a file, reads return nothing but data and nothing behind a bad block; if they fail, they have returned all blocks but one in front of the bad ones; they find the end, and the checking close returns 0, exactly in a file that begins with what was written, and have returned all the data then; a header damaged into another size is covered if the first block of that size fails its CRC |
| `CrcRuns.ByteBehind` | utils/fopen_crc.c:216-226 | a byte behind the parity block makes a different file that reads and closes like the one written |
| `CrcRuns.SeekAndRead` | utils/fopen_crc.c:355-589 | after a seek to any non-negative target, from any earlier position, reads return exactly the data from there on, all of it once a read returned nothing |
| `CrcRuns.PartialAppend` | utils/fopen_crc.c:309-353 | the r+ protocol with any reads in between leaves the blocks of old data up to x plus the new data over the old bytes, with a parity that is off by the exclusive-or of the blocks not read: those behind the block of the last byte read, or none if the last read found the end or the empty last block (`Unread`) |
| `CrcRuns.SkewedParity` | utils/fopen_crc.c:326-353 | all bodies of such a file make that exclusive-or, and it is the closed file exactly if it is zero |
| `CrcRuns.PartialAppendAndRead` | utils/fopen_crc.c:309-647 | reads from such a file return exactly the old data up to x and the new data, and the checking close returns 0 exactly if the blocks not read cancel out; reads fail only at the end of the data |
| `CrcRuns.HalfRead` | utils/fopen_crc.c:309-353 | with data of one block of which only a part was read, the checking close after the append never returns 0 and no read finds the end, although all data is read back |
| `CrcRuns.AppendRun` | utils/fopen_crc.c:309-353 | if the last read returned 0, the r+ protocol leaves the closed file of old data up to x plus the new data, over the old bytes |
| `CrcRuns.AppendAndRead` | utils/fopen_crc.c:309-647 | after any append whose last read returned 0, also one that leaves old blocks behind it, a sequential read gives exactly the old data up to x and the new data, all of it once a read returned nothing, and the checking close returns 0 |
| `CrcRuns.AppendedFile` | utils/fopen_crc.c:326-353 | rewriting the blocks from the one x is in amounts to writing the whole new image over the old one, whatever its parity block |
| `CrcRuns.CompleteExactly` | utils/fopen_crc.c:326-353 | the appended file is the complete closed file of the new data exactly when floor((len + 8) / datasz) is not smaller for the new data than for the old |
| `CrcRuns.LongEnough` | utils/fopen_crc.c:326-353 | in particular whenever the new data is at least as long as the old |
| `CrcRuns.OldSize` | utils/fopen_crc.c:501-533 | after an append that ends at least two blocks earlier than the old file, fileSize() finds the old size |
| `CrcRuns.SeekEndAfterAppend` | utils/fopen_crc.c:501-589 | after an append, a seek to the end of the data goes there exactly if the new data needs no fewer blocks than the old, and to the old end if it needs two less |
| `CrcRuns.EarlyEnd` | utils/fopen_crc.c:355-419 | once a run of reads has returned all data every later read returns nothing |
| `Paths.BackwardIsForward` | utils/cleanpath.c:53-79 | one backward pass with a counter of pending ".." computes what a forward stack of names computes |
| `Paths.CleanIdempotent` | utils/cleanpath.c:32-108 | cleaning a cleaned path changes nothing exactly unless the path has no drive letter and the first name that survives is "x:.", or ":." behind a slash |
| `Paths.CleanIdempotentWithoutColon` | utils/cleanpath.c:32-108 | so it changes nothing for every path without a colon |
| `Paths.CleanParts` | utils/cleanpath.c:32-108 | a path of some ".." and then names without colons is its own cleaning; behind a slash the ".." are dropped unless nothing else is left |
| `Paths.LeftOut` | utils/cleanpath.c:45-83 | a second slash, "/." and a name with "/.." behind it can be left out anywhere behind the first name of a path, drive letter or not |
| `Paths.CleanedTwice` | utils/cleanpath.c:46-63 | "./c:." becomes "c:.", and that "c:/" |
| `Paths.CleanKeepsAbsolute` | utils/cleanpath.c:89-104 | a cleaned path begins with a slash exactly when the path did, drive letter or not |
| `Paths.CleanNeverLonger` | utils/cleanpath.c:32-36 | the promise that the result is never longer holds exactly for all paths but the empty one and two bytes that end in a colon |
| `CleanPathMethod.CleanPath` | utils/cleanpath.c:37-108 | the loop over a buffer filled from its end yields the leftover ".."s and the surviving names of the forward resolution, behind a drive letter if there is one |
| `RelPath.Relpath` | utils/relpath.c:40-80 | the pointer loops compute the ".."s from the last common component and the rest of the path |
| `RelPath.RelativeIs` | utils/relpath.c:19-39 | between paths with a common front: one ".." for each further name of base, then the further names of path, and "." for none |
| `RelPath.ConcatPath` | utils/concat_path.c:23-67 | all branches, null and empty arguments and a buffer that is one of the arguments |
| `RelPath.FourForms` | utils/concat_path.c:42-67 | "first", "first/" and "first/." in front of "second", and "first" in front of "/second", all give "first/second" |
| `RelPath.ConcatLeads` | utils/concat_path.c:42-67 | the concatenation leads where the components of the first and then those of the second lead, from the root if the first does |
| `RelPath.InsertLeads` | utils/concat_path.c:28-43 | into a buffer that is the second argument: first, one slash and second, or the one that is not empty; its components are those of first and then those of second |
| `RelPath.Resolves` | utils/relpath.c:66-77 | going down base, up and down again resolves to the components of path |
| `RelPath.RelativeLeadsToPath` | utils/relpath.c:19-39 | for all clean absolute paths, cleanPath(concat_path(base, relpath(base, path))) is path exactly unless a colon behind the first slash makes it look like a drive letter (`Astray`) |
| `RelPath.ColonMisleads` | utils/relpath.c:19-39 | from "/:a" the relative path does not lead to "/b" |
| `PathRuns.ThereAndBack` | utils/relpath.c:19-39 | the same condition for a run of the three routines over their buffers |
| `ShellMethods.ShellQuote` | lines/lines.c:548-572 | counts the escapes and fills a buffer of exactly the size that is allocated |
| `ShellMethods.ShellSplit` | lines/lines.c:603-732 | the switch loop with its growing buffer computes the tokens, with room for two more bytes at every loop head; what they are for text in characters is in `SplitOfWords` |
| `ShellMethods.BufResize` | lines/lines.c:616-625 | doubling keeps the bytes so far and makes the room asked for |
| `ShellMethods.ReadDoubleQuoted` | lines/lines.c:669-692 | the block copies between quotes and backslashes read what the character rules read |
| `Shell.QuotedText` | lines/lines.c:669-692 | a string escaped for double quotes is read back up to the closing quote |
| `Shell.SplitOfQuoted` | lines/lines.c:540-547 | splitting quoted strings joined by spaces exits exactly if some string holds a backquote and needs no quotes, and else gives all non-empty strings as literals |
| `Shell.SplitOfWords` | lines/lines.c:626-732 | quoted strings and the tokens `>`, `>>`, `<`, `|`, `m>`, `m<`, `m>&n`, `m<&n` for all digits m and n, joined by spaces in any order, come back in that order, the latter marked as meta; it exits exactly if some string holds a backquote and needs no quotes |
| `Shell.QuotesExactly` | lines/lines.c:548-572 | a string of one character or more is read as itself, without quotes, exactly if it holds neither a quoting character nor a backquote |
| `Shell.OriginalStringsReturned` | lines/lines.c:540-547 | the promised inverse holds exactly for lists of non-empty strings in which every string with a backquote also has a quoting character |
| `ShellMethods.QuoteAndSplit` | lines/lines.c:540-547 | the same as a run of the two routines over a list of strings |
| `U32Table.PutKeepsOk` | hash/u32hash.c:129-138 | filling the empty slot at the end of a probe run leaves no hole in any run |
| `U32Table.NotFound` | hash/u32hash.c:82-99 | an empty slot at the end of the run means the key is nowhere in the table |
| `U32Table.OverwriteWideValue` | hash/u32hash.c:159-171 | overwriting one wide value in the region changes no other value |
| `U32Table.NewWideValue` | hash/u32hash.c:140-149 | a wide value behind the region overlaps no other |
| `U32Table.KeysListed` | hash/u32hash.c:173-212 | table order names every key of the map once, and as many as are counted |
| `U32Hash.U32Hash.constructor` | hash/u32hash.c:45-70 | an empty map in 32 slots |
| `U32Hash.U32Hash.Lookup` | hash/u32hash.c:82-99 | the probe ends, at the key or at the empty slot behind its run |
| `U32Hash.U32Hash.Fetch` | hash/u32hash.c:101-111 | the value in the map, nothing for a key that is absent or 0 |
| `U32Hash.U32Hash.Insert` | hash/u32hash.c:113-157 | adds a key that is absent and refuses one that is present; before that the table doubles exactly when more than three quarters of it are used, so the load stays at three quarters plus one |
| `U32Hash.U32Hash.Store` | hash/u32hash.c:159-171 | map update, in place for a key that is present |
| `U32Hash.U32Hash.Resize` | hash/u32hash.c:222-237 | doubles the table and keeps the map |
| `U32Hash.U32Hash.Next` | hash/u32hash.c:187-212 | the next used slot behind the cursor, which fetch moves as well |
| `U32Hash.U32Hash.Walk` | hash/u32hash.c:173-212 | a full walk visits every key once |
| `U32Hash.U32Hash.Size` | hash/u32hash.c:214-220 | the count is the number of keys |
| `MemTable.DoffMonotone` | hash/memhash.c:46-67 | shorter data never reaches further into a node than longer data did |
| `MemTable.DoffAligned` | hash/memhash.c:46-67 | data goes behind the key at the next multiple of 8, 4 or 2 that its length asks for, with no room left over |
| `MemTable.Node.Rewrite` | hash/memhash.c:212-222 | data no longer than before stays inside the allocation and leaves the key whole |
| `MemTable.LinkHolder` | hash/memhash.c:156-175 | linking a new key adds its node and changes the node of no other key |
| `MemTable.UnlinkHolder` | hash/memhash.c:236-255 | unlinking removes one key and changes the node of no other |
| `MemTable.SetPointer` | hash/memhash.c:113-131 | writing through the pointer that find_nodep() returned changes that one pointer |
| `MemTable.Link` | hash/memhash.c:156-175 | the pointers spell out the chains with the node inserted |
| `MemTable.Unlink` | hash/memhash.c:236-255 | the pointers spell out the chains without the node |
| `MemTable.FlatListsKeys` | hash/memhash.c:257-297 | table order names every key of the map once |
| `MemHash.MemHash.FindNodep` | hash/memhash.c:107-131 | the node of the key, and where the pointer to it is kept |
| `MemHash.MemHash.Fetch` | hash/memhash.c:133-153 | the value in the map or nothing |
| `MemHash.MemHash.NewNode` | hash/memhash.c:155-175 | a new node for the key; the table is split exactly when it was full |
| `MemHash.MemHash.Insert` | hash/memhash.c:174-202 | adds a key that is absent with data or zeros, refuses one that is present |
| `MemHash.MemHash.Store` | hash/memhash.c:205-233 | map update, in place or by a node that takes the old one's place |
| `MemHash.MemHash.Delete` | hash/memhash.c:235-255 | 0 and the key is gone, or -1 and nothing changed |
| `MemHash.MemHash.Split` | hash/memhash.c:299-326 | relinks every node into twice the buckets; every key keeps its node |
| `MemHash.MemHash.Next` | hash/memhash.c:267-297 | the next node in table order, from a position of its own |
| `MemHash.MemHash.Walk` | hash/memhash.c:257-297 | a walk visits every key once even if its body fetches |
| `MemHash.MemHash.Count` | hash/memhash.c:328-334 | the count is the number of keys |
| `WebEncode.RoundTrip` | utils/webencode.c:45-124 | decoding inverts encoding for every byte string, whatever stop follows |
| `WebEncode.NoStops` | utils/webencode.c:57-76 | encoded text holds no `&`, `=` or NUL |
| `WebEncode.EncodeInjective` | utils/webencode.c:57-76 | no two byte strings have the same text, trailing NULs included |
| `CodecText.EncodedText` | utils/webencode.c:26-76 | the encoding in characters: letters, digits and "-_.~/@" as they are, `+` for a space, and "%xy" in small hexadecimal digits for the rest; a NUL at the end is left out, and "%FF" stands where there is none |
| `CodecText.EscapeIsRead` | utils/webencode.c:78-124 | two hexadecimal digits behind a `%`, small or capital, are read as their byte, except that "%FF" says that no NUL follows |
| `WebEncode.DecodeStops` | utils/webencode.c:78-124 | text that is not refused is decoded up to its first stop, in a buffer of strcspn + 1 bytes, exactly if decoding does not reach an escape of one digit right in front of a stop |
| `WebEncode.ShortEscapes` | utils/webencode.c:102-110 | the escape "%5" at the end steps behind the NUL, and "%5&aaaa" is written behind the buffer |
| `WebEncode.WebEncode` | utils/webencode.c:57-76 | the loop prints the encoding |
| `WebEncode.WebDecode` | utils/webencode.c:84-124 | the loop over a buffer of strcspn + 1 bytes computes the decoding for any text, refuses it, or is about to leave the text or the buffer |
| `HashStr.PrintedIsRead` | hash/hash_tostr.c:38-79 | whatever pairs are printed are stored again, in the order printed |
| `HashStr.MapRoundTrip` | hash/hash_tostr.c:38-79 | every map is rebuilt from its printed pairs in any order |
| `CodecText.PrintedText` | hash/hash_tostr.c:30-50 | the printed text in characters: "key=value", with `&` between neighbours |
| `HashStr.HashFromStr` | hash/hash_tostr.c:53-79 | the parse loop over a hash table: for any text the table as filled so far, and success, failure or the step out of the text that a short escape leads to |
| `HashFileMethods.BinaryField` | hash/hash_tofile.c:218-241 | true exactly for text with an unprintable byte or a long line |
| `CodecText.BinaryByte` | hash/hash_tofile.c:223-241 | which bytes are not text |
| `CodecText.BinaryLine` | hash/hash_tofile.c:223-241 | a line of up to 256 printable characters is text, behind a newline one of up to 255 |
| `HashFileMethods.WriteField` | hash/hash_tofile.c:286-324 | the text form or the base64 lines of a field, or the finding that text without a NUL would be read behind its end |
| `HashFileMethods.WriteRecords` | hash/hash_tofile.c:77-95 | the loop over the sorted keys writes their records one after the other, text or base64 |
| `HashFileMethods.HashPl.ParseLine` | hash/hash_tofile.c:141-205 | one line changes key, buffered value, base64 flag and table as the line grammar says, or it is one that base64_decode() refuses, or a header whose key ends in a short escape |
| `HashFileMethods.ReadRecords` | hash/hash_tofile.c:111-139 | the line loop reads a stream into a hash table, up to a line of the last two kinds |
| `HashFile.HeaderIsRead` | hash/hash_tofile.c:180-186 | a key that does not begin with `@`, ending in " base64" or not, comes back from the header of a text |
| `HashFile.HeaderIsRead64` | hash/hash_tofile.c:180-186 | and from the header of a value in base64 |
| `CodecText.KeyIs` | hash/hash_tofile.c:243-277 | in a key a space becomes `+`, and `%`, `+`, `&`, `=` and a newline become escapes |
| `CodecText.EscapeIs` | hash/hash_tofile.c:312-321 | in a value every `@` that begins a line is doubled, and nothing else changes |
| `CodecText.FieldText` | hash/hash_tofile.c:286-324 | a record of text in characters: "@key", the lines of the value if there is one, a newline |
| `CodecText.FieldText64` | hash/hash_tofile.c:296-324 | and one in base64: "@key base64", the text of 48 bytes at a time, each with a newline more, and a newline |
| `HashFile.ValueIsRead` | hash/hash_tofile.c:187-203 | the lines of a value, a leading `@` doubled, are read one by one whatever follows |
| `HashFile.RecordsAreRead` | hash/hash_tofile.c:57-139 | records of text with good keys are stored in the order they were written |
| `HashFile.BinaryGarbles` | hash/hash_tofile.c:187-203 | a value that went out as base64 makes the reader take a buffer that was not set: behind every line of base64 stands an empty one, which is refused |
| `HashFile.RoundTripExactly` | hash/hash_tofile.c:57-139 | reading what was written is sure to give the same map exactly when no key begins with `@` and no value goes out as base64 |
| `HashFileMethods.SaveAndLoad` | hash/hash_tofile.c:57-139 | the same as a run: a hash table written and read into a new one |
| `Base64.Base64Encode` | utils/base64.c:27-78 | text with line breaks and NUL, inside the computed size |
| `Base64.SizeSuffices` | utils/base64.c:34-38 | text and NUL fit into the computed size, which one byte fills completely |
| `Base64Text.SymbolsAre` | utils/base64.c:45-70 | every symbol stands for its six bits of a group of three bytes, first bits first, in the alphabet A-Z, a-z, 0-9, `+`, `/`, and `=` for what is missing |
| `Base64Text.EncodeInLines` | utils/base64.c:50-73 | the text is its symbols in lines of 72, a newline behind each line |
| `Base64.EncodeFiltered` | utils/base64.c:45-70 | leaving out the line breaks leaves the symbols of the bytes |
| `Base64.BlocksOfSymbols` | utils/base64.c:119-144 | the blocks give the bytes back, the padding ending them |
| `Base64.RoundTrip` | utils/base64.c:91-148 | decoding inverts encoding, whatever foreign characters are put in or left out, exactly for non-empty input and room for whole blocks |
| `Base64.Base64Decode` | utils/base64.c:91-148 | result, length and bytes for any text, and no write beyond the room given |
| `Base64.ThereAndBack` | utils/base64.c:27-148 | encoding and decoding over buffers of the computed sizes gives every non-empty byte string back |
| `Glob.MatchOne` | utils/glob.c:77-149 | the loop and its recursion compute, for any pattern and string, the answer of the token machine that the lemmas compare with the meaning: 1, 0, or a read outside; `GlobText.AnswerIs` starts from the characters of the pattern |
| `Glob.ReadBracket` | utils/glob.c:90-112 | the bracket loop decides membership for every character and the NUL, and leaves the pattern exactly if no unread `]` is left; `RangeAnswers` says which characters a range takes |
| `Glob.ScanAhead` | utils/glob.c:134-149 | the scan behind a star, which skips to the next place that can begin a match, gives the answer of trying every place |
| `Glob.StarMeans` | utils/glob.c:134-149 | a star in front of anything but stars takes all but a rest that is not empty |
| `Glob.AgreesExactly` | utils/glob.c:76-149 | match_one() gives the declarative meaning for all strings exactly for the patterns that `Fine` describes |
| `Glob.Witness` | utils/glob.c:76-149 | for any other pattern, a string with which it goes wrong |
| `Glob.PlainPatterns` | utils/glob.c:76-149 | without brackets and a backslash at the end these are the patterns that do not end in two stars; those that do are decided as if they asked for one character more |
| `Glob.BrokenPatterns` | utils/glob.c:90-132 | "[^a]", "[]", "[a-]" and a lone backslash read outside their strings, and "[^a]*" matches the empty string |
| `GlobText.AnswerIs` | utils/glob.c:76-149 | a pattern of characters, escapes, `?`, `*` and brackets, without inverted brackets and two stars at the end, matches exactly the strings that its characters mean |
| `GlobText.MatchText` | utils/glob.c:76-149 | the same as a run of match_one() |
| `GlobText.OneBracket` | utils/glob.c:90-112 | any bracket of characters and ranges, inverted or not, against one character |
| `GlobText.RangeAnswers` | utils/glob.c:90-112 | "[lo-hi]" takes exactly the characters from lo to hi, and "[^lo-hi]" exactly the others |
| `GlobText.LettersAnswer` | utils/glob.c:90-112 | ignoring case, a range of letters takes exactly the letters in between in the alphabet, small or capital |
| `VzipFormat.FrameAt` | utils/fopen_vzip.c:27-44 | every block stands at the offset its table row gives |
| `VzipFormat.TailAt` | utils/fopen_vzip.c:27-44 | the table can be found from the end of the file |
| `VzipFormat.TableIsRead` | utils/fopen_vzip.c:285-332 | the table is read as it was written |
| `VzipBytes.LaidOutExactly` | utils/fopen_vzip.c:27-72 | a file is the container of some blocks exactly if it is laid out as the format comment says, byte for byte: the name, each compressed block behind its length, four zeros, for each block its length before compression and then the offset where it begins, and the number of blocks, all numbers in four bytes, low byte first |
| `Vzip.Vzip.ZipWrite` | utils/fopen_vzip.c:459-484 | one more block and table row |
| `Vzip.Vzip.ZipClose` | utils/fopen_vzip.c:537-567 | the file is the container of the blocks written; `VzipBytes.LaidOutExactly` says which bytes these are |
| `Vzip.Vzip.OpenAppend` | utils/fopen_vzip.c:149-162 | positions the stream so that the next block goes over the table |
| `Vzip.Vzip.LoadSzArray` | utils/fopen_vzip.c:285-332 | loads the table of a container, or fails |
| `Vzip.Vzip.ZipRead` | utils/fopen_vzip.c:380-457 | the next block or the end; a stale stream reports the end although it is not there, and skips the block; without a table, the block where the file stands |
| `Vzip.Vzip.ZipSeek` | utils/fopen_vzip.c:486-535 | which places are found, which are taken for the end and which are refused but become the offset; the offset the stream has already moves nothing; a negative place is refused, drops the table and leaves the file where it is |
| `VzipRuns.WriteContainer` | utils/fopen_vzip.c:459-567 | write and close give the container of the blocks, laid out byte for byte as the format says as long as offsets fit in four bytes |
| `VzipRuns.AppendToContainer` | utils/fopen_vzip.c:149-162 | append mode gives the container of old and new blocks, laid out byte for byte under the same condition |
| `VzipRuns.ReadContainer` | utils/fopen_vzip.c:380-457 | a sequential read gives the concatenation of the blocks |
| `VzipRuns.SeekAndRead` | utils/fopen_vzip.c:380-535 | from every state of a reading stream: which block reading goes on with after a seek to block j, and that it is j exactly if the place is not the offset of a stream that stands elsewhere and the file was not drained while the stream stood at that block |
| `VzipRuns.LoseBlock` | utils/fopen_vzip.c:380-535 | a run of reads and seeks, for any container of two blocks or more, after which a seek to the second block reads nothing, and the same seek once more leads to the third |
| `VzipRuns.SeekBelow` | utils/fopen_vzip.c:486-535 | behind a seek to a negative place the next read returns the block where the file stands, whatever was sought before, or finds the end of the file |

## Left out

- Fcrc: fopen_crc()'s choice of the block size from the estimated size; any size
  from 2^6 to 2^16 is a parameter.
- FopenCrc: reading the old format, and what follows where the library stops on an
  assertion, because of another letter or a size it does not use.
- CrcSeek: the state behind a seek that took a wrong size from a file with blocks
  behind its parity block, apart from the offset. So `SeekAndRead` and `PartialAppend`
  are about files with nothing behind it.
- CloseWriter: the bytes written where that assertion stops the library in reading
  back; and a stream that goes on writing after a failed first write.
- Fcrc: the old "CRC" format that puts the length first, the two environment
  variables that spoil or ignore the parity, and closing an r+ stream that was
  opened and never positioned.
- ReadBlock: what the scan that it starts after a CRC error prints. In a file that is
  not made of whole blocks an assertion of the scan stops the library; the model
  returns -1.
- Fcrc: buffers that are allocated on first use are there from the start, and the
  last block read is a sequence, so aliasing of the buffer is not modelled.
- SoftwareCrc32c: the SSE4.2 routine, the cpuid test and the big-endian tables. Of the
  constants the eight that fix all others are compared with the tables (`SingleBits`).
- Stdio: buffering, error returns of the file operations, errno and messages.
- Widths: file offsets and sizes are unbounded integers. The 32-bit values of the
  CRC, the hash table and the container are bounded or truncated explicitly; the
  overflow of `int` lengths is not modelled.
- Masks and alternatives: `& (size - 1)` with a power of two is a remainder, shifts
  are multiplications and divisions, and `|` of numbers without common bits is a sum.
- CleanPath: network drives, which only the Windows build has; a path of MAXPATH
  bytes or more.
- Relpath: paths that are not clean and absolute, which it does not accept.
- ShellQuote: environment of the shell itself; `exit(1)` is a result value.
- U32Hash: freeing, and a table beyond 2^30 slots, where `3 * size` would wrap.
- U32Hash.Insert: a value of four bytes is stored in the byte order of the machine,
  little-endian here.
- MemHash: 8-byte pointers are assumed in the alignment of data; freeing; data that
  overlaps the node it is stored into.
- MemHash: hdr.kptr and its companions are modelled as the node they describe; after
  storing shorter data in place the library leaves the old length in them.
- HASH() is the CRC-32C of the key; nothing but its being a function is used.
- HashStr: the stream that hash_toStr() prints to, the sorting of its lines and the
  empty table; the round trip holds for every order of the lines.
- WebEncode.Read: what sscanf("%2x") does with white space, signs and "0x" is that of
  the GNU library; what follows once the text or the buffer is left is not modelled.
- HashFileMethods: the empty key, keys that are not C strings (which hash_toStream()
  refuses), and sorting the keys; buffering the value is a field that is taken and
  reset. What is read behind a value without a NUL is not modelled.
- HashFile.ParseLine: the model of a run ends at a line of base64 that is refused and
  at a key that ends in a short escape.
- HashFile: creating the table on demand when none is given.
- MatchOne: the variable that makes `=` a star, and the message for a bracket without
  an end; lower case is that of the C locale. What is read outside the strings is not
  modelled.
- Vzip: zlib and LZ4 are an abstract codec; blocks out of order (the high bit of a
  length) and vzip_findSeek(); a block read is given to the caller as a whole.
- ZipRead: a further read behind the end of a stream without a table, which has been
  repositioned before, takes the table for a block.
- Other files of the library: walking directories, processes, tty, tracing, tcp,
  priority queues, the database wrapper and the simple string and line utilities.
