# Verification models of the TDT sources

This project models six parts of the repository in Dafny and proves what they are for.

**The block compressors of the JFFS2 image builder** (`tdt/cvs/hostapps/mkfs.jffs2/`).

- LZARI (`compr_lzari.c`): a ring-buffer window, 256 binary search trees that find matches, an adaptive
  frequency model and an integer arithmetic coder. The main result is that what `Encode` compresses with
  success, `Decode` turns back into exactly the source (`LzariCodec.RoundTripTokens`, `Codec.RoundTrip`). It
  rests on the search index agreeing with a brute-force search, on the tables in place agreeing with a model
  on values, on the two renormalisation loops agreeing although they test in a different order, and on a byte
  string determining the tokens it codes.
- LZO1X (`compr_lzo.c`): the instruction printer, the byte-level parser and the optimiser that rewrites a
  stream in place. A byte string decodes to a text exactly when it is the print of a legal instruction list
  (`LzoDecode.DecodeIff`); the parser with its word-wise copies agrees with that (`LzoParser.Decompress`); the
  optimiser changes neither length nor text (`LzoOptimizer.Optimize`).
- RTIME (`compr_rtime.c`): round trip, with self-overlapping copies.

LZARI and LZO are shown to keep the contract that the registry and the image writer rely on, and RTIME for
pages of up to 32767 bytes (`Jffs2Lzari.LzariLawful`, `Jffs2Lzo.LzoLawful`, `Jffs2Rtime.RtimeLawful`).

**The image writer and the compressor registry** (`mkfs.jffs2.c`, `compr.c`). A directory tree is written as
nodes; every node is aligned and inside one erase block, every gap is 0xFF; a scan of the image stops at
exactly the nodes written; and read back from those nodes, the root directory is exactly the tree, every file
being put together from its fragments. The registry is a circular doubly linked list sorted by priority.

**The PTI demultiplexer driver** (`tdt/cvs/driver/pti/pti_main.c`). Hardware, a timer and a thread share a
circular packet buffer, a work queue and a semaphore. For every interleaving each demultiplexer is given
exactly the payloads of its packets, in order. The PID table of the firmware mirrors the 32 slots.

**Update images** (`tdt/flash/common/mup.src/`): a pack of partitions is written as one image and parsed back
to the same partitions, which verify (`Mup.RoundTrip`); streaming SHA-1 (`sh1.cpp`) for any block function.

**Receiver update files** (`tdt/flash/common/fup.src/fup.c`): files cut into checked blocks, and gathered again
(`Fup.RoundTrip`).

**The answer to reset of a smart card** (`tdt/cvs/driver/smartcard/atr.c`): a parser and a printer that undo
each other (`Atr.ParseIff`, `Atr.Record.Echo`), and exactly when the parser stays inside its record.

## How it is arranged

One module a file. Modules that compute are functions with lemmas about them; what the sources change in
place (tables, trees, buffers, queues, lists, the image) are classes and arrays whose methods are proved
against those functions.

| part | modules |
|---|---|
| shared | `Arithmetic`, `Integers`, `Buffers`, `LittleEndian` |
| LZARI model and tables | `LzariModel`, `LzariTables` |
| LZARI intervals and bits | `LzariCode`, `LzariBitSink`, `LzariEncoder`, `LzariDecoder`, `LzariTokens` |
| LZARI index and window | `LzariTree`, `LzariIndex`, `LzariMatcher`, `LzariWindow` |
| LZARI as a whole | `LzariCodec` |
| RTIME | `Rtime` |
| LZO streams | `LzoFormat`, `LzoParse`, `LzoDecode`, `LzoRewrite` |
| LZO procedures | `LzoPrinter`, `LzoCompressor`, `LzoParser`, `LzoOptimizer`, `LzoInterface` |
| image | `Jffs2Format`, `Jffs2Layout`, `Jffs2Writer`, `Jffs2Rescan`, `Jffs2Tree`, `Jffs2Files` |
| registry | `Jffs2Compress`, `Jffs2Registry` |
| the codecs in the registry | `Jffs2Rtime`, `Jffs2Lzari`, `Jffs2Lzo` |
| PTI | `PtiModel`, `PtiDriver`, `PtiPids` |
| update images | `Sha1`, `Mup` |
| receiver update files | `Fup` |
| smart card | `Atr` |

`dafny verify dfyconfig.toml` checks everything.

## Where the code and its comments differ

- `compr_rtime.c:28` says that the compressed size is returned; the code returns 0 or -1, and so does the model.
- `compr_lzari.c:246-247` says that `srclen` comes back as the number of bytes compressed with success; when
  the output overflows it is the number read when the last full byte was written. Only the success case is
  promised here.
- `compr_lzari.c:216-218` and `231-233` describe results for arguments outside the table; the searches are
  only called with arguments inside it, and only those are specified.
- `compr.c:183-185` says that a compressor works on as much as fits; LZARI and LZO fail instead.
- `atr.c:193` says that TB1 is below 0x80; the code accepts 0x80 as well.

## Where the code fails

Each of these has its exact condition, and most of them an input at which they fail.

- `atr.c:150` tests the number of protocols before counting it up, and lets a seventh TD byte pass: the parser
  then writes behind its record. It stays inside if and only if the answer has at most seven levels of
  interface bytes (`Atr.Record.InitFromArray`, `Atr.SevenTdBytes`).
- `sh1.cpp:90` adds in 32 bits. The test is right if and only if the bytes in the buffer and the length of the
  piece add up to less than 2^32 (`Sha1.UpdateTest`, `Sha1.UpdateTestFails`); `Sha1.Context.Update` is proved
  for every such piece.
- A queue of `QUEUE_SIZE` outstanding entries looks empty to the thread of `pti_main.c:330-347`. In every
  interleaving it takes all entries, in order, if and only if it never looks while `QUEUE_SIZE` or more are ahead
  of it (`PtiModel.TakenIff`, `PtiModel.TooMany`); of m entries queued while it does not run it takes all if and
  only if m is below `QUEUE_SIZE` (`PtiModel.EntriesTaken`).
- `process_buffer` (`mkfs.jffs2.c:1218-1319`) ends on a buffer if and only if its pointer comes neither out below
  the buffer nor to any place twice (`Jffs2Rescan.EndsIff`). Where no length carries the pointer over the last
  address, that is if and only if it comes to no header of a node that claims a length of 0 or above 2^32 - 4
  (`Jffs2Rescan.EndsUnlessStuck`, `Jffs2Rescan.StuckExample`); pointers of 32 bits have another input that never
  ends (`Jffs2Rescan.CarriedExample`). No node that this program writes does either.
- `compr_rtime.c:38` takes 2 from an unsigned length. What is written fits if and only if there is room for two
  bytes (`Rtime.FitsIff`). The last byte of a page is offered with room for one (`mkfs.jffs2.c:837-838`): it is
  rejected, but two bytes go into the one that `compr.c:203` has allocated (`Jffs2Rtime.LastByte`).
- `compr_rtime.c:32` keeps positions in shorts, which hold them if and only if they are at most 32767
  (`Rtime.ShortKeeps`); pages become larger with the option `-s` (`mkfs.jffs2.c:1376`).
- `fup.c:410` counts arguments in eight bits: of n files the first n mod 128 are written, which is all of them if
  and only if n is below 128 (`Fup.AppendedIff`, `Fup.NoneAppended`).
- `fup.c:328` keeps the position in the file in an `int32_t`. Extraction stays on the blocks if and only if the
  file has fewer than 2^32 bytes (`Fup.SeeksIff`).
- `swpack.cpp:189-197` keeps the length of a child in an `int32_t`, which is right if and only if its data has at
  most 2^31 - 1024 bytes (`Mup.ChildLengthIff`). `swpack.cpp:180-186` adds up the size of the image in 32 bits:
  everything fits if and only if it is below 2^32 (`Mup.CreateIff`).
- `swpack.cpp:65-70` follows a slot before it tests it, and so reads through the first slot that is not used, whose
  bytes nobody has set. It stays inside the image if and only if that slot leads nowhere or inside
  (`Mup.ImageReads`).
- `mkfs.jffs2.c:659` counts the bytes of the image in an `int`. It never leaves its range if and only if the image
  has fewer than 2^31 bytes (`Jffs2Files.Builder.CreateTargetFilesystem`).

## Model

| member | source | states |
|---|---|---|
| LzariModel.NextWellFormed | tdt/cvs/hostapps/mkfs.jffs2/compr_lzari.c:192-213 | every update, with or without the halving step, keeps the model well formed: frequencies positive and non-increasing, total at most Q1-1, symbols a permutation of the characters |
| LzariModel.NextCounts | tdt/cvs/hostapps/mkfs.jffs2/compr_lzari.c:192-213 | an update adds one to the frequency of exactly the coded character and leaves every other character its (possibly halved) frequency |
| LzariModel.InitialWellFormed | tdt/cvs/hostapps/mkfs.jffs2/compr_lzari.c:173-190 | the start model is well formed |
| LzariModel.SlicesNonEmpty | tdt/cvs/hostapps/mkfs.jffs2/compr_lzari.c:286-288 | every symbol owns a non-empty slice of the cumulative table below the total |
| LzariModel.SymUnique | tdt/cvs/hostapps/mkfs.jffs2/compr_lzari.c:192-213 | a character has exactly one symbol |
| LzariModel.PosSlices | tdt/cvs/hostapps/mkfs.jffs2/compr_lzari.c:185-187 | every position owns a non-empty slice of the position table |
| LzariModel.PosTotal | tdt/cvs/hostapps/mkfs.jffs2/compr_lzari.c:185-187 | the total of all 4096 position weights is positive and at most Q1-1 |
| LzariTables.Tables.StartModel | tdt/cvs/hostapps/mkfs.jffs2/compr_lzari.c:173-190 | the arrays are filled with the start model and agree with each other |
| LzariTables.Tables.UpdateModel | tdt/cvs/hostapps/mkfs.jffs2/compr_lzari.c:192-213 | the in-place update makes the arrays represent exactly the next model: cumulative sums, both inverse tables and frequencies again agree |
| LzariTables.Tables.HalveFrequencies | tdt/cvs/hostapps/mkfs.jffs2/compr_lzari.c:196-203 | halving in place equals halving the value, and the cumulative table is rebuilt to its suffix sums |
| LzariTables.Tables.BumpFrequency | tdt/cvs/hostapps/mkfs.jffs2/compr_lzari.c:210-212 | adding one to a frequency and to the sums in front of it keeps the table the suffix sums |
| LzariTables.Tables.BinarySearchSym | tdt/cvs/hostapps/mkfs.jffs2/compr_lzari.c:215-228 | the search returns the one symbol whose slice contains x |
| LzariTables.Tables.BinarySearchPos | tdt/cvs/hostapps/mkfs.jffs2/compr_lzari.c:230-243 | the search returns the one position whose slice contains x |
| LzariCode.RenormOrdersAgree | tdt/cvs/hostapps/mkfs.jffs2/compr_lzari.c:289-350 | from every interval the loop that tests the lower half first and the one that tests the middle half before it end in the same interval, offset and number of doublings |
| LzariCode.RenormContains | tdt/cvs/hostapps/mkfs.jffs2/compr_lzari.c:289-350 | renormalisation keeps exactly the code strings that the interval contained |
| LzariCode.NarrowInside | tdt/cvs/hostapps/mkfs.jffs2/compr_lzari.c:286-288 | a slice of a ready interval is a non-empty subinterval and no product leaves 32 bits |
| LzariCode.QuotientFindsSlice | tdt/cvs/hostapps/mkfs.jffs2/compr_lzari.c:609-613 | the decoder quotient is at least cum exactly when the value lies above the part of the interval below cum, and its product stays below 2^32 |
| LzariBitSink.ByteOfBits | tdt/cvs/hostapps/mkfs.jffs2/compr_lzari.c:291-301 | the byte collected under the mask has exactly the bits that were put |
| LzariBitSink.PackedBits | tdt/cvs/hostapps/mkfs.jffs2/compr_lzari.c:291-301 | bit i of the packed bytes is bit i of the bit list |
| LzariBitSink.BitSink.PutBit | tdt/cvs/hostapps/mkfs.jffs2/compr_lzari.c:291-301 | one bit is appended; the byte that is full goes to the destination, or the destination was full |
| LzariEncoder.ResolvedBase | tdt/cvs/hostapps/mkfs.jffs2/compr_lzari.c:302-348 | resolving the postponed bits gives the offset that the doublings prescribe |
| LzariEncoder.Encoder.Renormalise | tdt/cvs/hostapps/mkfs.jffs2/compr_lzari.c:289-350 | the loop with its postponed bits leaves the coder in the renormalised interval, or the output is full and too small for the bits needed |
| LzariEncoder.Encoder.CodeSlice | tdt/cvs/hostapps/mkfs.jffs2/compr_lzari.c:286-350 | coding a slice narrows and renormalises the interval |
| LzariEncoder.FlushFinished | tdt/cvs/hostapps/mkfs.jffs2/compr_lzari.c:512-580 | the final bits and seven zeros make just enough bytes, whose number is the flush value |
| LzariEncoder.FinishedContained | tdt/cvs/hostapps/mkfs.jffs2/compr_lzari.c:512-580 | a finished encoding, continued by zeros, lies in its final interval |
| LzariEncoder.Encoder.Flush | tdt/cvs/hostapps/mkfs.jffs2/compr_lzari.c:512-580 | success leaves a finished encoding in the destination; failure means it was too short for the bits |
| LzariDecoder.Decoder.NextBit | tdt/cvs/hostapps/mkfs.jffs2/compr_lzari.c:599-603 | the mask reader returns the next bit of the source, zeros past its end |
| LzariDecoder.Decoder.Start | tdt/cvs/hostapps/mkfs.jffs2/compr_lzari.c:597-604 | the first M+2 bits are read and the interval is the whole range |
| LzariDecoder.Decoder.Renormalise | tdt/cvs/hostapps/mkfs.jffs2/compr_lzari.c:614-627 | the decoder loop follows the encoder loop, with value the code string seen from the interval |
| LzariDecoder.Decoder.Quotient | tdt/cvs/hostapps/mkfs.jffs2/compr_lzari.c:609-611 | the quotient compares with every table entry as the value does with the interval |
| LzariDecoder.Decoder.TakeSlice | tdt/cvs/hostapps/mkfs.jffs2/compr_lzari.c:612-627 | narrowing to the slice found keeps the code string inside |
| LzariTokens.TokenDisjoint | tdt/cvs/hostapps/mkfs.jffs2/compr_lzari.c:280-510 | two tokens whose subintervals contain the same code string are the same token |
| LzariTokens.CodesPrefix | tdt/cvs/hostapps/mkfs.jffs2/compr_lzari.c:280-510 | a code string for a token list is one for each of its prefixes |
| LzariTokens.CodeDeterminesTokens | tdt/cvs/hostapps/mkfs.jffs2/compr_lzari.c:280-510 | a byte string codes at most one token list of each length |
| LzariTokens.ExpandPrefix | tdt/cvs/hostapps/mkfs.jffs2/compr_lzari.c:628-665 | expanding more tokens only appends to the text |
| LzariTree.PlugInOrder | tdt/cvs/hostapps/mkfs.jffs2/compr_lzari.c:83-122 | the nodes of a tree in order are those before, inside and behind any place in it |
| LzariTree.GrowLinked | tdt/cvs/hostapps/mkfs.jffs2/compr_lzari.c:96-104 | hanging a node into an empty place of the arrays adds a leaf to the tree they hold |
| LzariTree.RenameLinked | tdt/cvs/hostapps/mkfs.jffs2/compr_lzari.c:117-120 | a node that takes over the neighbours of another replaces it in the tree |
| LzariTree.SpliceLinked | tdt/cvs/hostapps/mkfs.jffs2/compr_lzari.c:140-142 | a node with one subtree is replaced by that subtree |
| LzariIndex.AttachIndex | tdt/cvs/hostapps/mkfs.jffs2/compr_lzari.c:96-104 | hanging a new string where the search ended keeps all 256 trees ordered and complete |
| LzariIndex.ReplaceIndex | tdt/cvs/hostapps/mkfs.jffs2/compr_lzari.c:117-121 | replacing an equal string keeps the index, with one member exchanged |
| LzariIndex.SpliceIndex | tdt/cvs/hostapps/mkfs.jffs2/compr_lzari.c:128-143 | removing a node with at most one subtree keeps the index |
| LzariIndex.TakeMaxIndex | tdt/cvs/hostapps/mkfs.jffs2/compr_lzari.c:131-139 | replacing a node by the last node of its left subtree keeps the index |
| LzariIndex.DeleteOneIndex | tdt/cvs/hostapps/mkfs.jffs2/compr_lzari.c:124-144 | the assignments of a deletion with at most one subtree give the index without the string |
| LzariIndex.DeleteTwoIndex | tdt/cvs/hostapps/mkfs.jffs2/compr_lzari.c:124-144 | the assignments of a deletion with two subtrees give the index without the string |
| LzariIndex.IndexText | tdt/cvs/hostapps/mkfs.jffs2/compr_lzari.c:496-499 | the text may be overwritten wherever no indexed string lies |
| LzariIndex.BestMatchEverywhere | tdt/cvs/hostapps/mkfs.jffs2/compr_lzari.c:97-116 | the best match on the search path is the best match among all indexed strings |
| LzariMatcher.Matcher.InitTree | tdt/cvs/hostapps/mkfs.jffs2/compr_lzari.c:67-81 | the arrays hold 256 empty trees |
| LzariMatcher.Matcher.Compare | tdt/cvs/hostapps/mkfs.jffs2/compr_lzari.c:105-106 | the loop finds the length of the common prefix and the order of the two strings |
| LzariMatcher.Matcher.Note | tdt/cvs/hostapps/mkfs.jffs2/compr_lzari.c:107-115 | the remembered match becomes the best among one more string |
| LzariMatcher.Matcher.InsertNode | tdt/cvs/hostapps/mkfs.jffs2/compr_lzari.c:83-122 | the match found is the longest common prefix with any indexed string, attained at match_position, and the new string is indexed, in place of an equal one if there is one |
| LzariMatcher.Matcher.TakeMax | tdt/cvs/hostapps/mkfs.jffs2/compr_lzari.c:131-139 | the assignments that move the last node of the left subtree up |
| LzariMatcher.Matcher.DeleteNode | tdt/cvs/hostapps/mkfs.jffs2/compr_lzari.c:124-144 | the string is no longer indexed and nothing else has changed in the index |
| LzariWindow.ParsesExpand | tdt/cvs/hostapps/mkfs.jffs2/compr_lzari.c:628-665 | tokens that are genuine for the source expand to the source, whatever the window held before |
| LzariWindow.MatchGenuine | tdt/cvs/hostapps/mkfs.jffs2/compr_lzari.c:280-284 | a match found in the ring buffer is a match in the stream |
| LzariWindow.StoreLoaded | tdt/cvs/hostapps/mkfs.jffs2/compr_lzari.c:495-501 | overwriting the oldest byte, and its mirror behind the ring, keeps the window in step with the source |
| LzariWindow.StoreApart | tdt/cvs/hostapps/mkfs.jffs2/compr_lzari.c:495-501 | no string still indexed contains the byte that is overwritten |
| LzariCodec.Codec.ShiftIn | tdt/cvs/hostapps/mkfs.jffs2/compr_lzari.c:493-510 | deleting the oldest string, storing a byte and indexing the next string keeps window, index and source in step |
| LzariCodec.Codec.ChooseToken | tdt/cvs/hostapps/mkfs.jffs2/compr_lzari.c:281-284 | the token chosen is the clamped longest match or a literal, and reproduces the source |
| LzariCodec.Codec.EncodeStep | tdt/cvs/hostapps/mkfs.jffs2/compr_lzari.c:280-510 | one round of the encoder appends a genuine token to what is coded, or the output is full |
| LzariCodec.Codec.Encode | tdt/cvs/hostapps/mkfs.jffs2/compr_lzari.c:249-581 | success means a finished encoding of tokens that stand for the whole source; failure means the destination is full and too short for a prefix of it |
| LzariCodec.Codec.DecodeToken | tdt/cvs/hostapps/mkfs.jffs2/compr_lzari.c:608-663 | the decoder finds exactly the next token that the code string codes |
| LzariCodec.Codec.CopyMatch | tdt/cvs/hostapps/mkfs.jffs2/compr_lzari.c:656-663 | the copy out of the ring is the copy from dist bytes back, cut off where the output ends |
| LzariCodec.Codec.Decode | tdt/cvs/hostapps/mkfs.jffs2/compr_lzari.c:583-667 | the tokens found are those that the source codes, and the output is what they expand to |
| LzariCodec.RoundTripTokens | tdt/cvs/hostapps/mkfs.jffs2/compr_lzari.c:249-667 | decoding what was encoded with success, for the original length, succeeds and gives exactly the source |
| LzariCodec.Codec.RoundTrip | tdt/cvs/hostapps/mkfs.jffs2/compr_lzari.c:695-707 | the same for the two procedures run one after the other on the same static state |
| Rtime.ChooseExpands | tdt/cvs/hostapps/mkfs.jffs2/compr_rtime.c:38-55 | the pairs chosen expand to exactly the part of the source that they cover |
| Rtime.Extend | tdt/cvs/hostapps/mkfs.jffs2/compr_rtime.c:49-53 | the inner loop finds the longest run of at most 255 bytes |
| Rtime.Compress | tdt/cvs/hostapps/mkfs.jffs2/compr_rtime.c:29-66 | for every length of the output, the bytes written are the chosen pairs and nothing behind them changes, the counts are theirs, and failure is reported exactly when nothing is gained |
| Rtime.FitsIff | tdt/cvs/hostapps/mkfs.jffs2/compr_rtime.c:38-55 | for a source that is not empty, what is written fits the output if and only if there is room for two bytes |
| Rtime.ShortKeeps | tdt/cvs/hostapps/mkfs.jffs2/compr_rtime.c:32-47 | a position is kept as it is in an array of short if and only if it is at most 32767 |
| Rtime.CopyBack | tdt/cvs/hostapps/mkfs.jffs2/compr_rtime.c:89-99 | byte-by-byte copy and memcpy both equal the copy that may run into itself |
| Rtime.DecodableIff | tdt/cvs/hostapps/mkfs.jffs2/compr_rtime.c:69-102 | the decompressor reads and writes inside its input and output if and only if the input begins with pairs that are just enough for the length asked and what they cover fits |
| Rtime.Decompress | tdt/cvs/hostapps/mkfs.jffs2/compr_rtime.c:69-102 | given such pairs, decompression expands them and consumes all their bytes |
| Rtime.RoundTripPairs | tdt/cvs/hostapps/mkfs.jffs2/compr_rtime.c:29-102 | what is compressed with success fits, is shorter than what it covers, is decodable for exactly that length and expands to that part of the source |
| Rtime.RoundTrip | tdt/cvs/hostapps/mkfs.jffs2/compr_rtime.c:29-102 | compressing and decompressing gives back the covered prefix |
| Jffs2Rtime.RtimeLawful | tdt/cvs/hostapps/mkfs.jffs2/compr_rtime.c:29-102 | for pages of up to 32767 bytes RTIME keeps the contract that the compressor registry and the image writer rely on |
| Jffs2Rtime.Compress | tdt/cvs/hostapps/mkfs.jffs2/compr_rtime.c:29-66 | the outcome is one that the contract is proved for, and the bytes written are the pairs also when it is a failure |
| Jffs2Rtime.LastByte | tdt/cvs/hostapps/mkfs.jffs2/mkfs.jffs2.c:828-838 | a single byte offered with room for one is rejected, but two bytes are written before |
| Jffs2Rtime.RoomOfOne | tdt/cvs/hostapps/mkfs.jffs2/compr_rtime.c:38-55 | six equal bytes with room for one come back with success as two bytes; the image writer never asks for that |
| LzoFormat.LegalPrefix | tdt/cvs/hostapps/mkfs.jffs2/compr_lzo.c:1679-1911 | every prefix of a legal instruction list is legal and each instruction is allowed where it stands |
| LzoParse.ParsePrint | tdt/cvs/hostapps/mkfs.jffs2/compr_lzo.c:905-1033 | every instruction printed where it is allowed is read back as itself, whatever follows it |
| LzoParse.PrintParse | tdt/cvs/hostapps/mkfs.jffs2/compr_lzo.c:1710-1911 | whatever is read is allowed there, and printing it gives the bytes that were read |
| LzoDecode.DecodePrinted | tdt/cvs/hostapps/mkfs.jffs2/compr_lzo.c:1679-1911 | every printed instruction list with an end marker decodes to its text |
| LzoDecode.DecodeIff | tdt/cvs/hostapps/mkfs.jffs2/compr_lzo.c:1679-1911 | a byte string decodes to t exactly when it is a printed instruction list for t with an end marker |
| LzoParser.CopyRun | tdt/cvs/hostapps/mkfs.jffs2/compr_lzo.c:1728-1765 | the word-wise copy of a literal run equals the byte-wise one |
| LzoParser.CopyMatch | tdt/cvs/hostapps/mkfs.jffs2/compr_lzo.c:1856-1887 | the word-wise copy of a match equals the byte-wise one that may run into itself |
| LzoParser.ReadLength | tdt/cvs/hostapps/mkfs.jffs2/compr_lzo.c:1713-1725 | the length field and its zero bytes are read as the format says |
| LzoParser.RunStep | tdt/cvs/hostapps/mkfs.jffs2/compr_lzo.c:1710-1781 | a literal run is performed, or the stream has no text |
| LzoParser.MatchHead | tdt/cvs/hostapps/mkfs.jffs2/compr_lzo.c:1785-1848 | the head of a match in any of the five forms, or the end marker, is read as the parser function says |
| LzoParser.MatchStep | tdt/cvs/hostapps/mkfs.jffs2/compr_lzo.c:1783-1902 | a match and its literals are performed, or the end marker is met, or the stream has no text |
| LzoParser.Decompress | tdt/cvs/hostapps/mkfs.jffs2/compr_lzo.c:1679-1924 | returns OK exactly when the input decodes within the space given, and then writes exactly its text |
| LzoPrinter.LenOfCodedMatch | tdt/cvs/hostapps/mkfs.jffs2/compr_lzo.c:1054-1093 | the result is exactly the number of bytes of the head of that match behind that many literals, or -1 when it cannot be coded |
| LzoPrinter.Writer.AnnounceRun | tdt/cvs/hostapps/mkfs.jffs2/compr_lzo.c:995-1027 | the three ways of announcing literals, among them the count hidden in op[-2], complete the stream of the list with these literals |
| LzoPrinter.Writer.StoreRun | tdt/cvs/hostapps/mkfs.jffs2/compr_lzo.c:995-1033 | the literals are added to the printed list |
| LzoPrinter.Writer.CodeMatch | tdt/cvs/hostapps/mkfs.jffs2/compr_lzo.c:905-993 | a match is printed in the form that its length, distance and the literals before it call for |
| LzoPrinter.HeadSize | tdt/cvs/hostapps/mkfs.jffs2/compr_lzo.c:905-993 | no match is printed with more bytes than it copies |
| LzoCompressor.BetterMatch | tdt/cvs/hostapps/mkfs.jffs2/compr_lzo.c:1118-1156 | the cheaper match offered instead is a genuine, not longer one |
| LzoCompressor.PrintMatch | tdt/cvs/hostapps/mkfs.jffs2/compr_lzo.c:1341-1346 | literals and match together stand for the source up to the end of the match |
| LzoCompressor.LazyMatch | tdt/cvs/hostapps/mkfs.jffs2/compr_lzo.c:1289-1339 | looking ahead either prints or keeps what lies before a better match, or changes nothing |
| LzoCompressor.Compress | tdt/cvs/hostapps/mkfs.jffs2/compr_lzo.c:1168-1366 | for every honest match finder the output is a stream for the source, of at most 2n+3 bytes |
| LzoOptimizer.Copy2 | tdt/cvs/hostapps/mkfs.jffs2/compr_lzo.c:1930-1938 | the two bytes placed in the stream are the first two bytes of the match |
| LzoOptimizer.Copy3 | tdt/cvs/hostapps/mkfs.jffs2/compr_lzo.c:1940-1958 | the three bytes placed in the stream are the first three bytes of the match |
| LzoOptimizer.AbsorbStep | tdt/cvs/hostapps/mkfs.jffs2/compr_lzo.c:2036-2044 | turning a match that costs as much as it copies into literals of the match before it keeps text, length and the rest of the stream |
| LzoOptimizer.DetachStep | tdt/cvs/hostapps/mkfs.jffs2/compr_lzo.c:2045-2061 | moving the literals behind a match, a short match and a short run into one run keeps text, length and the rest of the stream |
| LzoOptimizer.LengthenStep | tdt/cvs/hostapps/mkfs.jffs2/compr_lzo.c:2078-2093 | letting a short run take up a match and the short run behind it keeps text, length and the rest of the stream |
| LzoOptimizer.DetachInPlace | tdt/cvs/hostapps/mkfs.jffs2/compr_lzo.c:2045-2061 | the pointer writes, with the overlapping move of the literals, give exactly those bytes |
| LzoOptimizer.OptimizeMatch | tdt/cvs/hostapps/mkfs.jffs2/compr_lzo.c:2025-2193 | one match is rewritten or kept; before and behind it the stream still stands for the same text |
| LzoOptimizer.Optimize | tdt/cvs/hostapps/mkfs.jffs2/compr_lzo.c:1960-2204 | for every stream the pass rewrites it in place without changing its length, the result is a stream for the same text, and out holds that text |
| LzoInterface.Compress | tdt/cvs/hostapps/mkfs.jffs2/compr_lzo.c:2277-2306 | the page comes out unchanged, the optimised stream decodes to it, and it is returned exactly when it fits |
| LzoInterface.RoundTrip | tdt/cvs/hostapps/mkfs.jffs2/compr_lzo.c:2277-2314 | compressing, optimising and decompressing a page gives the page |
| Jffs2Registry.ListAdd | tdt/cvs/hostapps/mkfs.jffs2/compr.c:28-36 | inserting a link keeps the ring, with the link at that place |
| Jffs2Registry.ListDel | tdt/cvs/hostapps/mkfs.jffs2/compr.c:48-59 | removing a link keeps the ring without it |
| Jffs2Registry.Registry.Register | tdt/cvs/hostapps/mkfs.jffs2/compr.c:304-329 | the list stays a ring sorted by priority and holds one compressor more, behind all of at least its priority |
| Jffs2Registry.Registry.Unregister | tdt/cvs/hostapps/mkfs.jffs2/compr.c:331-341 | a compressor in use stays; another leaves the list, which stays sorted |
| Jffs2Registry.Registry.SetPriority | tdt/cvs/hostapps/mkfs.jffs2/compr.c:441-466 | the first compressor of the name moves to where its new priority puts it; the others keep their order |
| Jffs2Compress.Compress | tdt/cvs/hostapps/mkfs.jffs2/compr.c:187-301 | the result unpacks to the part of the data it stands for; priority mode takes the first enabled compressor that succeeds, size mode one with the shortest result, and without any the data is stored |
| Jffs2Compress.FirstFit | tdt/cvs/hostapps/mkfs.jffs2/compr.c:208-231 | the loop of the priority mode finds the first success |
| Jffs2Compress.BestFit | tdt/cvs/hostapps/mkfs.jffs2/compr.c:237-285 | the loop of the size mode finds a shortest success |
| Jffs2Format.InodeBack | tdt/cvs/hostapps/mkfs.jffs2/mkfs.jffs2.c:807-862 | an inode node written field by field reads back as the same inode |
| Jffs2Format.DirentBack | tdt/cvs/hostapps/mkfs.jffs2/mkfs.jffs2.c:744-773 | a directory entry written field by field reads back as the same entry |
| Jffs2Format.InodeSeal | tdt/cvs/hostapps/mkfs.jffs2/mkfs.jffs2.c:850-859 | the three checksums are those of the header, the data and the fields before them |
| Jffs2Layout.BlockEnds | tdt/cvs/hostapps/mkfs.jffs2/mkfs.jffs2.c:723-742 | wherever an erase block ends, a node or a filling ends |
| Jffs2Writer.Image.FullWrite | tdt/cvs/hostapps/mkfs.jffs2/mkfs.jffs2.c:676-693 | however many bytes each write takes, all of the buffer is appended; out_ofs has stayed below 2^31 so far if and only if it is below 2^31 now |
| Jffs2Writer.Image.PadBlock | tdt/cvs/hostapps/mkfs.jffs2/mkfs.jffs2.c:695-701 | the erase block is filled with 0xFF to its end and nothing else is written |
| Jffs2Writer.Image.PadBlockIfLessThan | tdt/cvs/hostapps/mkfs.jffs2/mkfs.jffs2.c:723-742 | afterwards the node fits into the erase block, behind its clean marker |
| Jffs2Writer.Image.WriteNode | tdt/cvs/hostapps/mkfs.jffs2/mkfs.jffs2.c:769-772 | a node is appended at a multiple of four inside one erase block |
| Jffs2Tree.TilesReplay | tdt/cvs/hostapps/mkfs.jffs2/mkfs.jffs2.c:820-871 | fragments that tile a file read back, in the order of their versions, as the file |
| Jffs2Files.Builder.WriteDirent | tdt/cvs/hostapps/mkfs.jffs2/mkfs.jffs2.c:744-773 | exactly one directory entry with these fields is appended |
| Jffs2Files.Builder.WriteFragment | tdt/cvs/hostapps/mkfs.jffs2/mkfs.jffs2.c:828-867 | a fragment of the page that fits the rest of the erase block is appended and unpacks to a non-empty prefix of the page |
| Jffs2Files.Builder.WriteRegularFile | tdt/cvs/hostapps/mkfs.jffs2/mkfs.jffs2.c:775-889 | the nodes appended are a directory entry and fragments with versions 1, 2, ... that carry the size of the file, lie end to end and unpack to the file, in every compression mode and whatever the compressors kept from earlier calls |
| Jffs2Tree.EntryAdded | tdt/cvs/hostapps/mkfs.jffs2/mkfs.jffs2.c:744-773 | a directory entry with a new number and the nodes of that number add exactly one child to its directory and nothing anywhere else |
| Jffs2Tree.TreeSame | tdt/cvs/hostapps/mkfs.jffs2/mkfs.jffs2.c:1021-1111 | a tree that has been written reads the same after nodes with other numbers are added |
| Jffs2Tree.ProgressStep | tdt/cvs/hostapps/mkfs.jffs2/mkfs.jffs2.c:1100-1110 | filling one more directory keeps those already filled and leaves the others empty |
| Jffs2Tree.TreeBuilt | tdt/cvs/hostapps/mkfs.jffs2/mkfs.jffs2.c:1028-1110 | the two passes over a directory, entries first and directories among them afterwards, give the tree |
| Jffs2Files.Builder.WriteEntries | tdt/cvs/hostapps/mkfs.jffs2/mkfs.jffs2.c:1028-1098 | the first pass gives every entry that is not too large a new number, in order, and shows it |
| Jffs2Files.Builder.WriteEntry | tdt/cvs/hostapps/mkfs.jffs2/mkfs.jffs2.c:1031-1096 | one more child of the directory, with a new number, that reads back as the entry; or nothing when the file is too large |
| Jffs2Files.Builder.WriteOther | tdt/cvs/hostapps/mkfs.jffs2/mkfs.jffs2.c:891-1019 | a directory entry and one inode node with the (possibly cut off) content are appended |
| Jffs2Files.Builder.Populate | tdt/cvs/hostapps/mkfs.jffs2/mkfs.jffs2.c:1021-1111 | read back from the nodes, the directory has got exactly the entries it had, each with its name, type, attributes and content, and exactly what hangs below them, all the way down; nothing else in the image changes |
| Jffs2Files.Builder.CreateTargetFilesystem | tdt/cvs/hostapps/mkfs.jffs2/mkfs.jffs2.c:1113-1143 | the entries of the root directory, and everything below them, read back from the nodes as exactly the tree that was to be written; the finished image keeps the layout and reaches the size asked for; out_ofs, an int, never left its range if and only if the image has fewer than 2^31 bytes |
| Jffs2Files.Builder.ScanImage | tdt/cvs/hostapps/mkfs.jffs2/mkfs.jffs2.c:1218-1341 | scanning the finished image stops at exactly its nodes, the nodes found there are those that were written, and the scan ends with the highest inode number |
| Jffs2Rescan.ProcessBuffer | tdt/cvs/hostapps/mkfs.jffs2/mkfs.jffs2.c:1218-1319 | on any buffer on which the scan ends, at any address and with pointers of any width, the loop stops at the headers, and raises the inode number, as the specification of its rounds says |
| Jffs2Rescan.Rescan | tdt/cvs/hostapps/mkfs.jffs2/mkfs.jffs2.c:1321-1341 | block by block the scan of an image that this program wrote, filled up to any size, visits exactly its nodes |
| Jffs2Rescan.NodesFound | tdt/cvs/hostapps/mkfs.jffs2/mkfs.jffs2.c:1218-1319 | the bytes at the positions where the scan stops are the nodes that were written, in order |
| Jffs2Rescan.PadStuck | tdt/cvs/hostapps/mkfs.jffs2/mkfs.jffs2.c:1255-1316 | a node length makes no progress exactly when it is 0 or above 2^32-4 |
| PtiModel.PollCounts | tdt/cvs/driver/pti/pti_main.c:549-560 | the packets between the two positions are one or two stretches in one piece each |
| PtiModel.ChainCovers | tdt/cvs/driver/pti/pti_main.c:578-597 | every packet polled and not yet taken is in exactly one queue entry |
| PtiModel.QueuePush | tdt/cvs/driver/pti/pti_main.c:578-597 | a new entry goes behind all others in the ring |
| PtiModel.QueuePop | tdt/cvs/driver/pti/pti_main.c:349-351 | the thread takes the entries in the order they were queued |
| PtiModel.OverflowTest | tdt/cvs/driver/pti/pti_main.c:337-347 | the indices meet exactly when the number of outstanding entries is a multiple of QUEUE_SIZE: a full ring looks empty |
| PtiDriver.Driver.Arrive | tdt/cvs/driver/pti/pti_main.c:518-522 | a packet written by the hardware leaves all packets still to be sorted in place |
| PtiDriver.Driver.ProcessPtiDma | tdt/cvs/driver/pti/pti_main.c:513-606 | every packet that has arrived is queued exactly once, in one stretch inside the buffer or in two when they go round its end, or none if the firmware is behind |
| PtiDriver.Driver.Fetch | tdt/cvs/driver/pti/pti_main.c:337-351 | the oldest entry is taken, the overflow test does not succeed, and its place in the ring is free from then on |
| PtiDriver.Driver.Collect | tdt/cvs/driver/pti/pti_main.c:459-480 | the payload is squeezed behind those of its tag, and a full collection is handed over |
| PtiDriver.Driver.SortOne | tdt/cvs/driver/pti/pti_main.c:390-483 | one more packet is sorted, for its demultiplexer only and only if there is one |
| PtiDriver.Driver.FlushOne | tdt/cvs/driver/pti/pti_main.c:484-494 | the remainder of one tag is handed over |
| PtiDriver.Driver.Finish | tdt/cvs/driver/pti/pti_main.c:497-498 | the entry is released |
| PtiDriver.Driver.Quiet | tdt/cvs/driver/pti/pti_main.c:330-499 | when the thread sleeps with nothing queued, each demultiplexer has been given exactly the payloads of its packets among those polled, in order |
| PtiDriver.Driver.Run | tdt/cvs/driver/pti/pti_main.c:330-606 | every interleaving of hardware, timer and thread keeps the whole invariant; the timer fires unless that would leave QUEUE_SIZE entries ahead of the thread |
| PtiDriver.Driver.Settle | tdt/cvs/driver/pti/pti_main.c:330-606 | after any run, one more round leaves every demultiplexer with exactly the payloads of its packets in order of arrival, in batches of at most AUX_COUNT |
| PtiPids.Pids.PtiWrite | tdt/cvs/driver/pti/pti_main.c:151-160 | a half-word is changed and no other, although whole words are written |
| PtiPids.AddEntry | tdt/cvs/driver/pti/pti_main.c:954-976 | setting a PID keeps slots and table together exactly when the slot had none before and the PID is not 0xffff |
| PtiPids.RemoveEntry | tdt/cvs/driver/pti/pti_main.c:891-911 | moving the last entry keeps slots and table together |
| PtiPids.Pids.SlotSetPid | tdt/cvs/driver/pti/pti_main.c:948-990 | with success the PID is the last entry of the table, and the firmware never saw a PID that is in neither the old nor the new table, nor missed one that is in both |
| PtiPids.Pids.SlotClearPid | tdt/cvs/driver/pti/pti_main.c:874-916 | exactly the PID of the slot is gone, and at every write the firmware saw all others and no stranger |
| PtiPids.Pids.SlotFree | tdt/cvs/driver/pti/pti_main.c:918-934 | the slot is free and its PID, if it had one, is gone |
| PtiPids.Pids.GetNewSlotHandle | tdt/cvs/driver/pti/pti_main.c:992-1013 | a slot that was not in use is handed out, or all are in use |
| Sha1.FoldJoin | tdt/flash/common/mup.src/sh1.cpp:89-96 | folding the block function over joined data is folding over the parts |
| Sha1.CountAdd | tdt/flash/common/mup.src/sh1.cpp:88-89 | the two counters hold the number of bits modulo 2^64 across the carry |
| Sha1.UpdateTest | tdt/flash/common/mup.src/sh1.cpp:90 | the 32-bit test is right if and only if the fill of the buffer plus the length of the piece stays below 2^32 |
| Sha1.Context.Update | tdt/flash/common/mup.src/sh1.cpp:83-100 | after each piece, whenever the test is right, the context holds the fold over all complete blocks, the remainder and the bit count |
| Sha1.Context.Final | tdt/flash/common/mup.src/sh1.cpp:105-128 | the digest is that of the message with exactly the padding of section 5.1.1 of FIPS 180-4, and the context is wiped |
| Sha1.HashPieces | tdt/flash/common/mup.src/sh1.cpp:83-128 | the digest does not depend on how the message is cut into pieces, as long as the test is right for each |
| Sha1.UpdateTestFails | tdt/flash/common/mup.src/sh1.cpp:90 | one free byte in the buffer and a piece of 2^32 - 63 bytes: the test says that it fits |
| Sha1.LoopTest | tdt/flash/common/mup.src/sh1.cpp:93 | the sum in the test of the loop does not wrap when the first test is right |
| Jffs2Rescan.EndsIff | tdt/cvs/hostapps/mkfs.jffs2/mkfs.jffs2.c:1218-1319 | for any buffer, at any address and with pointers of any width, the scan ends if and only if its pointer comes neither out below the buffer nor to any place twice, and this shows within as many rounds as there are bytes |
| Jffs2Rescan.EndsUnlessStuck | tdt/cvs/hostapps/mkfs.jffs2/mkfs.jffs2.c:1218-1319 | as long as no length carries the pointer over the last address, it ends if and only if it comes to no header with the magic and a real type whose length is 0 or above 2^32 - 4 |
| Jffs2Rescan.NotCarried | tdt/cvs/hostapps/mkfs.jffs2/mkfs.jffs2.c:1218-1319 | 4 GB of addresses behind the buffer rule out that a length carries the pointer over the last one |
| Jffs2Rescan.StuckExample | tdt/cvs/hostapps/mkfs.jffs2/mkfs.jffs2.c:1255-1268 | an inode node that claims no bytes holds the scan |
| Jffs2Rescan.CarriedExample | tdt/cvs/hostapps/mkfs.jffs2/mkfs.jffs2.c:1218-1319 | with pointers of 32 bits, 16 bytes with a length of 2^32 - 8 take the pointer back to the beginning for ever |
| Jffs2Rescan.PrintedEnds | tdt/cvs/hostapps/mkfs.jffs2/mkfs.jffs2.c:1218-1319 | the scan of a block that was written, with up to three bytes of 0xFF behind it, ends and finds exactly its nodes and its highest inode number, with pointers of 32 bits or more |
| Jffs2Lzari.LzariLawful | tdt/cvs/hostapps/mkfs.jffs2/compr_lzari.c:249-707 | LZARI, with any choice among equally long matches, keeps the contract of the registry and the image writer |
| Jffs2Lzari.Compress | tdt/cvs/hostapps/mkfs.jffs2/compr_lzari.c:695-700 | the outcome is one that the contract is proved for |
| Jffs2Lzari.Decompress | tdt/cvs/hostapps/mkfs.jffs2/compr_lzari.c:702-707 | the outcome is one that the contract is proved for |
| Jffs2Lzo.LzoLawful | tdt/cvs/hostapps/mkfs.jffs2/compr_lzo.c:2277-2314 | LZO, for any honest match finder, keeps the contract of the registry and the image writer |
| Jffs2Lzo.Compress | tdt/cvs/hostapps/mkfs.jffs2/compr_lzo.c:2277-2306 | the outcome is one that the contract is proved for, and the page comes out unchanged |
| Jffs2Lzo.Decompress | tdt/cvs/hostapps/mkfs.jffs2/compr_lzo.c:2308-2314 | it gives exactly what the stream decodes to |
| PtiModel.EntriesTaken | tdt/cvs/driver/pti/pti_main.c:330-347 | of m entries queued while the thread does not run, it takes all if and only if m is below QUEUE_SIZE, and none of QUEUE_SIZE |
| PtiModel.TakenIff | tdt/cvs/driver/pti/pti_main.c:330-347 | in every interleaving of poller and thread, from an empty queue on, the thread takes all entries in order, as far as it gets, if and only if it never looks for one while QUEUE_SIZE or more are ahead of it |
| PtiModel.TooMany | tdt/cvs/driver/pti/pti_main.c:330-347 | once QUEUE_SIZE entries are ahead of it, the next time the thread looks it loses an entry or takes a wrong one, whatever happens in between |
| PtiModel.LookIff | tdt/cvs/driver/pti/pti_main.c:337-351 | a single look is right if and only if fewer than QUEUE_SIZE entries are ahead |
| Mup.InventoryBack | tdt/flash/common/mup.src/swinventory.cpp:41-58 | an inventory header reads back as it was written |
| Mup.UnityBack | tdt/flash/common/mup.src/swunity.cpp:61-83 | a partition header reads back as it was written |
| Mup.OffsetUp | tdt/flash/common/mup.src/swpack.cpp:163-176 | the children lie one behind the other and do not overlap |
| Mup.SwPack.SetUnity | tdt/flash/common/mup.src/swunity.cpp:314-352 | 512 bytes of header with name, length, hash and checksum of the data, and the data |
| Mup.SwPack.SetPartition | tdt/flash/common/mup.src/swinventory.cpp:125-145 | the slot names offset, size and place in flash, and the child is the partition filled up to a multiple of 512 bytes |
| Mup.SwPack.AppendPartition | tdt/flash/common/mup.src/swpack.cpp:163-176 | one more partition, whose child begins where the one before ends |
| Mup.SlotKeeps | tdt/flash/common/mup.src/swpack.cpp:188-194 | writing a slot leaves the slots before it and all children in place |
| Mup.ChildKeeps | tdt/flash/common/mup.src/swpack.cpp:196-200 | writing a child leaves the children before it and all slots in place |
| Mup.SwPack.CreateImage | tdt/flash/common/mup.src/swpack.cpp:178-207 | every slot and every child is in its place; the children tile everything behind the first 1024 bytes; the first slot not used stays as it was; the length returned is that of the image as an int32_t |
| Mup.SwPack.AddLengths | tdt/flash/common/mup.src/swpack.cpp:180-182 | the length is the size of the image modulo 2^32 |
| Mup.ChildLengthIff | tdt/flash/common/mup.src/swpack.cpp:189-197 | the length of a child, kept in an int32_t, is not negative if and only if its data has at most 2^31 - 1024 bytes |
| Mup.CreateIff | tdt/flash/common/mup.src/swpack.cpp:178-201 | slots and children fit into the memory that was asked for if and only if the image has fewer than 2^32 bytes |
| Mup.Parse | tdt/flash/common/mup.src/swpack.cpp:50-78 | the slots up to the first that is not valid, and what they lead to; nothing outside the image is read if and only if that holds for each slot looked at, the one that ends the list included |
| Mup.ChildRecovered | tdt/flash/common/mup.src/swunity.cpp:61-83 | a slot and its child give back flash offset, name and exact bytes, and verify |
| Mup.ImageRecovered | tdt/flash/common/mup.src/swpack.cpp:50-78 | from an image that was created, parsing recovers exactly the partitions, in order |
| Mup.ImageReads | tdt/flash/common/mup.src/swpack.cpp:60-76 | parsing an image that was created stays inside it if and only if all eight slots are used or the first that is not leads nowhere or inside |
| Mup.Verify | tdt/flash/common/mup.src/swunity.cpp:241-283 | true exactly when hash and checksum of every partition are those of its data |
| Mup.RoundTrip | tdt/flash/common/mup.src/swpack.cpp:50-207 | partitions that are appended, written as an image and parsed come back as they were, and verify; nothing outside the image is read if and only if that holds for the first slot not used, whose bytes are what was in memory |
| Fup.ChunksGathered | tdt/flash/common/fup.src/fup.c:483-487 | the blocks of a file, full ones and one that is not full, hold exactly the file |
| Fup.AllGathered | tdt/flash/common/fup.src/fup.c:411-491 | gathering the blocks of a type gives the files of that type, one behind the other |
| Fup.Creator.WriteHeader | tdt/flash/common/fup.src/fup.c:210-223 | the header block with its checksum |
| Fup.Creator.WriteBlock | tdt/flash/common/fup.src/fup.c:224-242 | one block of file data with type, length and checksum |
| Fup.Creator.Append | tdt/flash/common/fup.src/fup.c:483-487 | the blocks of one file are appended, and counted modulo 2^16 |
| Fup.Creator.RefreshHeader | tdt/flash/common/fup.src/fup.c:493-513 | the header in place gets the count and a new checksum, and nothing else changes |
| Fup.Creator.Create | tdt/flash/common/fup.src/fup.c:401-518 | the first n mod 128 of n files are written: a header with the count of their blocks modulo 2^16 and a valid checksum, and their blocks |
| Fup.AppendedIff | tdt/flash/common/fup.src/fup.c:410-411 | every file is written if and only if there are fewer than 128 |
| Fup.NoneAppended | tdt/flash/common/fup.src/fup.c:410-411 | of 128 files of one byte none is written |
| Fup.Extractor.ReadBlock | tdt/flash/common/fup.src/fup.c:244-323 | one block is checked and appended to the file of its type |
| Fup.SeeksIff | tdt/flash/common/fup.src/fup.c:328-386 | extraction stays on the blocks of a file that was created if and only if the file has fewer than 2^32 bytes; otherwise a seek goes back towards the beginning |
| Fup.Extractor.Extract | tdt/flash/common/fup.src/fup.c:372-397 | from a file of fewer than 2^32 bytes that was created, every checksum is right and each type gets exactly its blocks |
| Fup.RoundTrip | tdt/flash/common/fup.src/fup.c:372-518 | fewer than 128 files, in fewer than 2^32 bytes, that were created are extracted: each type gets its files, one behind the other, also when a file fills its last block |
| Atr.ParseGroupsSound | tdt/cvs/driver/smartcard/atr.c:98-159 | the interface bytes found are those that T0 and the TD bytes announce |
| Atr.ParseGroupsComplete | tdt/cvs/driver/smartcard/atr.c:98-159 | interface bytes that are announced and there are found |
| Atr.ParseIff | tdt/cvs/driver/smartcard/atr.c:65-201 | parsing finds the one well-formed answer whose print the bytes begin with, and fails if there is none |
| Atr.Restored | tdt/cvs/driver/smartcard/atr.c:420-456 | an answer that is printed and parsed again is restored if and only if its first byte is not 0x03 |
| Atr.Record.ReadGroups | tdt/cvs/driver/smartcard/atr.c:98-159 | the rows written are as many as there are levels, and one behind the record if there are more than seven |
| Atr.Record.InitFromArray | tdt/cvs/driver/smartcard/atr.c:65-201 | the parser stays inside its record if and only if there are at most seven levels; then it succeeds exactly when the bytes begin with the print of a well-formed answer of acceptable values, and stores it |
| Atr.RowsBound | tdt/cvs/driver/smartcard/atr.c:98-159 | no row behind the record is written if and only if there are at most seven levels |
| Atr.SevenTdBytes | tdt/cvs/driver/smartcard/atr.c:144-152 | nine bytes with seven TD bytes, well formed, make the parser write behind its record |
| Atr.Record.CheckValues | tdt/cvs/driver/smartcard/atr.c:184-198 | the check of TA1 and TB1, when there is no TD byte |
| Atr.Record.GetRaw | tdt/cvs/driver/smartcard/atr.c:420-456 | the buffer holds the print of the answer |
| Atr.Record.Echo | tdt/cvs/driver/smartcard/atr.c:65-456 | what was parsed with success is printed as it came |

## Left out

- LzariCodec.Codec.Encode: what `srclen` holds after an overflow is not stated; a source of no bytes is excluded, because `compr_lzari.c:509` then counts an unsigned zero down.
- LZARI integer width: `unsigned long` is taken as 32 bits, as the comment at `compr_lzari.c:155` does; every product is proved to stay below 2^32.
- LZARI code shape: the three copies of the renormalisation loop and the repeated byte output are each one method; single-bit masks are powers of two.
- Read-only inputs are sequences; only what the sources write to is an array.
- Rtime.Compress: sources above 32767 bytes are excluded, as the positions are `short`.
- Rtime.Decompress: texts above 32767 bytes, and bytes for which the source would leave its input or output (`Rtime.DecodableIff`), are excluded.
- LzoParser.Decompress: of the error codes only OK and not OK are distinguished; a read past the end of the input, which the source performs before its test, is an error here.
- LzoCompressor.Compress: the dictionary search is any function that reports genuine matches within the window; statistics and progress callbacks are not modelled.
- LzoOptimizer.Optimize: streams that are no print of a legal instruction list are excluded, as in its only caller; the used part of `cmprssmem` is an array of its own.
- LZO1X-1, the other compressor of `compr_lzo.c`, and zlib, whose library is not shown.
- Jffs2Compress.Compress: the compression check, buffers kept per compressor, statistics and allocation failures are not modelled; the list it walks is a sequence in priority order, the ring itself being the subject of `Jffs2Registry`.
- Enabling and disabling a compressor by name.
- Jffs2Files.Builder.WriteRegularFile: mode, owner and times are bytes taken as given; a file does not change between `stat` and the last `read`.
- Jffs2Files.Builder.CreateTargetFilesystem: the erase block is a multiple of four and large enough for a clean marker and any directory entry or link, `pad_fs_size` is -1 or not negative, and inode numbers and versions stay within 32 bits. The results about images hold of the source as long as `image.fits`, that is below 2^31 bytes; what follows when `out_ofs` overflows, which is not defined, is left out.
- Jffs2Files.Builder.WriteOther: the data checksum of a pipe or directory, the constant 0 in the source, is that of no bytes.
- Byte order: little-endian images only. Checksums: any function of the bytes.
- Jffs2Rescan.Rescan: whole images are those that this program wrote; a single block may be any buffer (`Jffs2Rescan.EndsIff`). Setting the accurate bit in the buffer that is read is not modelled, nor what lies below the buffer when a pointer comes out there.
- Host directories, device tables, options and verbose printing of `mkfs.jffs2.c`.
- PtiDriver.Driver.ProcessPtiDma: the branch that resets the DMA engine after discarded packets, and error counters.
- PtiDriver.Driver.Run: the set of demultiplexers is fixed during a run, the hardware does not lap the injector, as the source presumes, and polls that would leave QUEUE_SIZE entries ahead of the thread are skipped (`PtiModel.TooMany` says what they lead to); the `STREAMCHECK` code, the SPARK7162 tags and the poller without `__TDT__` are other builds.
- PtiPids.Pids.SlotSetPid: pauses between the writes are left out, and slots are parallel arrays instead of pointers to records.
- Sha1.Context.Update: the block function is a parameter; pieces for which the 32-bit test fails are excluded, as the source would copy past its buffer.
- Mup.RoundTrip: at most eight partitions, as many as there are slots, which the source does not count; names are shorter than 32 bytes and have no zero byte, every child is below 2^31 bytes and the image below 2^32; padding and the unused parts of headers are arbitrary, except that the first slot not used must not be a valid one by chance, and the count of partitions starts at 0, both of which the source leaves to chance. A host of the byte order of the format.
- Mup.Parse: what is found where the source reads outside the image is not stated.
- Fup.RoundTrip: fewer than 128 files, which are all that are written, and fewer than 2^32 bytes, up to which they are all found; types below 17 and the build without zlib; the `-ce`, `-r`, `-s` and `-t` commands are left out, and input files are sequences.
- Fup.Extractor.ReadBlock: block lengths 1 to 5 end the extraction here like the end of the file; the source sizes an array with `len - 2` and writes `len - 6` bytes for them, which is not defined. A wrong checksum is remembered where the source waits for a key.
- Atr.Record.InitFromArray: at most 33 bytes; what an answer of more than seven levels leads to after the write behind the record is not stated. Values of interface bytes that are absent are forgotten. The lookup functions of `atr.c:203-418` are left out.
- `ramzswap.c`, and the kernel and hardware plumbing.
