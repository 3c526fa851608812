# Verified models of the gzip, lzop, dpkg, expr and recovery cores

This project models five parts of the sch-i500-gingerbread recovery tree in Dafny and proves what they are for.

**gzip** (`src/busybox/archival/gzip.c`, `src/busybox/libbb/crc32.c`). The DEFLATE compressor as imperative code: the
sliding window with hash chains, lazy matching, token buffers, heap-built Huffman trees with length limiting, canonical
codes, run-length coded trees, the three block forms, and the 16-bit bit packer. `Inflate.dfy` and `Gzip.dfy` hold a small
decoder written from sections 3.2.2 to 3.2.7 of RFC 1951 and section 2.3 of RFC 1952, as pure functions; with the compressor
it shares the tables of the format, the token type and nothing that encodes or decodes. The main theorem is `Gzip.Zip`: for every input, decoding the bytes written gives the bytes read.
On the way it is proved that code lengths are optimal whenever the tree fits the limit (`BuildTree.Build`), that lengths are
clipped exactly when it does not (`Merges.ClippedIffDeep`), that the limit repair ends with Kraft sum 1 (`LengthLimit.Repair`), that a byte the match search never
compares is equal anyway (`Hash.ThirdByte`, `LongestMatch.LongestMatch`), that the search misses a longer match in the window
only behind more strings of the same hash than it may visit (`LongestMatch.SearchIsComplete`), and that predicted and emitted bits agree
(`FlushBlock.SendBest`).

**lzop** (`src/busybox/archival/lzop.c`). The in-place rewriter of LZO1X streams, against a decoder in `Lzo1x.dfy`:
`LzoLoop.Optimize` keeps the decoding through all five rewrites. Adler-32 with deferred reduction: `Adler.Adler32`, and
`Adler.NmaxIsLargest` for the bound.

**dpkg** (`src/busybox/archival/dpkg.c`). Version ordering as an order on keys, the three double-hashed tables with the
primality of their sizes, and the dependency phase of check_deps, an if-and-only-if (`DpkgDeps.CheckDependencies`).
`DpkgFile.CheckStatusFile` goes the whole way: from empty tables, through any stanzas of a status file split by
add_split_dependencies, to the result of the phase, which is what the text of the file says.

**expr** (`src/busybox/coreutils/expr.c`). The eight mutually recursive evaluators over a shared cursor, against a grammar
with levels; `ExprEval.Run` evaluates every tree, written in any legal way, to the tree's value, and accepts nothing else. The
grammar is unambiguous (`ExprParses.OneReading`).

**recovery** (`src/recovery/main.c`, `src/recovery/bootloader.c`). The bootloader control block: reading, writing, the misc
partition, and runs of the recovery program that can be cut off between any two steps or in the middle of a write
(`BcbProtocol.Restartable`); the calls on the partition are steps of these runs (`BcbRuns.Start`, `BcbRuns.Finish`). Reading a field, writing it back and reading again is a fixpoint for every field
(`BcbText.ReadWriteRead`). Starting from an argument vector it is not: `BcbText.ReadBack` says exactly which vectors survive,
`BcbText.TooLong` gives a family that does not, and `BcbText.FieldFixpoint` says exactly when the field itself stays as it is.

## Reading the project

State that the source updates in place is a class with fields and arrays (`BitSink.Sink`, `BuildTree.Work`,
`TokenBuffer.Buffer`, `Coder.Coder`, `Window.Window`, `Deflate.Deflater`, `LzoLoop.Optimizer`, `DpkgHash.NameTable`,
`DpkgDatabase.Database`, `ExprEval.Evaluator`, `BcbDevice.Misc`); each method is proved against a specification function, and the lemmas are about
those functions. Bytes and 16-bit words are ranges of integers; shifts, masks and exclusive or are defined on naturals in
`Bits.dfy`. Bit streams are sequences of booleans.

Modules, bottom up. gzip: `Limits`, `Bits`, `Canonical`, `Inflate`, `BitSink`, `GenCodes`; trees: `Sums`, `Merges`, `Optimal`,
`PriorityQueue`, `TreeOrder`, `CodeCost`, `FirstPass`, `LengthLimit`, `Forest`, `BuildTree`, `PrefixCodes`; blocks: `RunLength`,
`TreeSender`, `CodeTables`, `Tokens`, `TokenBuffer`, `CompressBlock`, `StaticTrees`, `DynHeader`, `Coder`, `DynTrees`,
`BlockReads`, `FlushBlock`; input: `Hash`, `LongestMatch`, `Dictionary`, `Crc`, `Window`, `Deflate`, `Gzip`. lzop: `Lzo1x`,
`LzoRewrite`, `LzoOptimize`, `LzoLoop`, `Adler`. dpkg: `VersionKey`, `DpkgVersion`, `Probing`, `DpkgHash`, `DpkgTables`,
`DpkgDeps`, `DpkgSplit`, `DpkgIndex`, `DpkgDatabase`, `DpkgFile`. expr: `ExprValue`, `ExprGrammar`, `ExprParses`, `ExprPrints`, `ExprEval`. recovery: `BcbText`, `BcbArgs`,
`BcbDevice`, `BcbProtocol`, `BcbRuns`.

`dafny verify dfyconfig.toml` checks everything.

## Where the code and its comments differ

The model follows the code.

- Above version_compare in dpkg.c a comment promises -1, 0 or 1; version_compare_part returns any number of the right sign, so only signs are specified.
- add_split_dependencies matches relations with strncmp over the length of what was written, so a lone `<` or `>` counts as `<<` or `>>`, where section 7.1 of the Debian Policy Manual reads the old single forms as `<=` and `>=`.
- check_deps tests the version relation only of a package found under the dependency's own name; a provider satisfies a dependency whatever version is asked for.

## Model

| member | source | states |
|---|---|---|
| `BitSink.BiReverse` | src/busybox/archival/gzip.c:470-480 | The result, sent least significant bit first, spells the code most significant bit first, for every code of 1 to 15 bits |
| `BitSink.Sink.constructor` | src/busybox/archival/gzip.c:1826-1833 | A new bit writer is within its bounds and has sent the empty bit string |
| `BitSink.Sink.FlushOutbuf` | src/busybox/archival/gzip.c:369-376 | Flushing moves the buffered bytes to the output and loses or repeats none |
| `BitSink.Sink.Put8` | src/busybox/archival/gzip.c:382-386 | The byte sequence grows by exactly this byte and `outcnt < OUTBUFSIZ` still holds, also when the buffer has just been flushed |
| `BitSink.Sink.Put16` | src/busybox/archival/gzip.c:389-398 | Both branches, with or without room for two bytes, append the two bytes low byte first and keep `outcnt < OUTBUFSIZ` |
| `BitSink.Sink.SendBits` | src/busybox/archival/gzip.c:442-462 | Flushed bytes, buffered bytes and the low `bi_valid` bits of `bi_buf` together spell the old stream followed by the value, least significant bit first; `bi_valid <= 16` and `outcnt < OUTBUFSIZ` are kept |
| `BitSink.Spill` | src/busybox/archival/gzip.c:442-462 | When a value crosses the 16-bit buffer, the stored word and the bits left over spell the old bits followed by the value, for every split point |
| `BitSink.Sink.BiWindup` | src/busybox/archival/gzip.c:486-498 | The stream is padded with zero bits to a byte boundary, no more than that, and no bits stay buffered |
| `BitSink.Windup` | src/busybox/archival/gzip.c:486-498 | One, two or no final bytes, by how many bits are buffered, spell exactly the padded stream |
| `BitSink.Sink.CopyBlock` | src/busybox/archival/gzip.c:505-522 | The stream becomes the padded stream, then LEN, its one's complement, then the data bytes, as section 3.2.4 of RFC 1951 lays a stored block out |
| `GenCodes.FirstFits` | src/busybox/archival/gzip.c:1157-1190 | For lengths within the Kraft bound every entry of next_code is at most 2^15, so its 16-bit type never wraps |
| `GenCodes.NextCodes` | src/busybox/archival/gzip.c:1164-1169 | next_code[b] is the first code of length b by section 3.2.2 of RFC 1951, computed from counts that agree with the lengths |
| `GenCodes.GenCodes` | src/busybox/archival/gzip.c:1157-1190 | Every symbol with a length gets the bit-reversed canonical code of section 3.2.2 of RFC 1951; unused symbols and those above max_code keep their field |
| `Canonical.PrefixFree` | src/busybox/archival/gzip.c:1157-1190 | For lengths within the Kraft bound no canonical code is a prefix of another, in transmission order |
| `Canonical.CodesFit` | src/busybox/archival/gzip.c:1167-1174 | First code plus number of codes never exceeds 2^length at any length within the Kraft bound; the source asserts the case of the last length of a complete code |
| `Inflate.SymbolReads` | src/busybox/archival/gzip.c:1157-1190 | The decoder of section 3.2.2 of RFC 1951 reads back the symbol whose canonical code comes next in the stream |
| `PriorityQueue.PqDownHeap` | src/busybox/archival/gzip.c:1026-1048 | From a heap below k to a heap from k on, over the same set of nodes; cells outside the heap are untouched |
| `PriorityQueue.TopSmallest` | src/busybox/archival/gzip.c:1022-1048 | The first entry is smallest in the order of SMALLER (frequency, then depth) |
| `BuildTree.CollectLeaves` | src/busybox/archival/gzip.c:1224-1238 | The heap lists exactly the symbols with a frequency, max_code is the largest of them (-1 if none) and the other lengths are 0 |
| `BuildTree.ForceTwo` | src/busybox/archival/gzip.c:1240-1255 | At least two symbols end up in use; opt_len and static_len lose exactly what the forced codes will add; max_code stays the largest symbol in use |
| `BuildTree.Heapify` | src/busybox/archival/gzip.c:1257-1261 | The n/2 sift-downs make a heap over the same symbols |
| `BuildTree.JoinTwo` | src/busybox/archival/gzip.c:1267-1285 | One round joins two lightest roots, records them from the top of the heap array, and keeps the weights, the fathers and the heap over the remaining roots |
| `BuildTree.Combine` | src/busybox/archival/gzip.c:1263-1289 | The loop ends in one tree over the symbols in use in which every step joined two lightest roots, laid out in heap[heap_max..] with every father before its sons |
| `Forest.TopIsLightest` | src/busybox/archival/gzip.c:1208-1213 | The two nodes taken by PQREMOVE and from the new top are two different lightest nodes of the forest |
| `Forest.Grow` | src/busybox/archival/gzip.c:1273-1285 | Joining two lightest roots keeps the record of a greedy construction; weights stay within the sum of all frequencies |
| `TreeOrder.FatherFirst` | src/busybox/archival/gzip.c:1263-1289 | In heap[heap_max..] the father of every node stands before it, so when a pass reaches a node the father's cell already holds a length |
| `TreeOrder.LayoutNoRepeat` | src/busybox/archival/gzip.c:1263-1289 | No node is listed twice in heap[heap_max..], so no cell is overwritten twice |
| `TreeOrder.PassStep` | src/busybox/archival/gzip.c:1082-1092 | Although Dad and Len share one cell, at each node the cell still holds the father and the father's cell already holds its clipped depth |
| `TreeOrder.PassStart` | src/busybox/archival/gzip.c:1082 | Clearing the root's cell, which shares memory with its Dad, starts the pass correctly |
| `TreeOrder.PassEnd` | src/busybox/archival/gzip.c:1079-1106 | After the pass every cell holds the node's depth clipped to max_length |
| `TreeOrder.OverflowIsClipped` | src/busybox/archival/gzip.c:1086-1090 | overflow counts two for every node whose sons are clipped |
| `Merges.ClippedIffDeep` | src/busybox/archival/gzip.c:1084-1108 | Nothing is clipped, and so overflow is 0, if and only if no leaf of the tree lies deeper than max_length |
| `Merges.ClippedKraft` | src/busybox/archival/gzip.c:1084-1106 | The clipped depths have Kraft sum 1 plus one unit of 2^-max_length for every clipped pair: the excess is overflow/2 |
| `Merges.ManyAtMax` | src/busybox/archival/gzip.c:1113-1120 | There is at least one more node at depth max_length than clipped pairs, so bl_count[max_length] cannot run out during the repair |
| `Merges.UnclippedCost` | src/busybox/archival/gzip.c:1079-1106 | Frequency times depth summed over the leaves is the total weight of the joined nodes |
| `FirstPass.Run` | src/busybox/archival/gzip.c:1074-1106 | Lengths are clipped depths, bl_count tallies them, overflow is twice the clipped pairs, and opt_len and static_len grow by exactly frequency times (length plus extra bits) |
| `LengthLimit.InitialExcess` | src/busybox/archival/gzip.c:1107-1114 | Before the repair the counts have Kraft sum 1 plus overflow/2 units and tally the lengths, with none above max_length |
| `LengthLimit.ShorterExists` | src/busybox/archival/gzip.c:1115-1117 | While overflow is positive some length below max_length is in use, so the search for it stops |
| `LengthLimit.MoveDown` | src/busybox/archival/gzip.c:1118-1124 | One step lowers the Kraft excess by one unit, keeps the number of leaves and makes no count negative |
| `LengthLimit.Repair` | src/busybox/archival/gzip.c:1113-1125 | The loop ends with Kraft sum exactly 1, the same number of leaves, and no count above max_length touched |
| `LengthLimit.HandOutLengths` | src/busybox/archival/gzip.c:1127-1145 | The rebuilt lengths realise bl_count exactly, only symbols in use have one, a less frequent symbol never gets a shorter code than a more frequent one, and opt_len is corrected by exactly the change in cost |
| `LengthLimit.LaterIsLighter` | src/busybox/archival/gzip.c:1263-1289 | heap[heap_max..] lists the symbols in use in decreasing order of frequency, because each step joined two lightest roots |
| `LengthLimit.CostAdjust` | src/busybox/archival/gzip.c:1138-1142 | The correction added for one symbol is frequency times the change of its length |
| `Optimal.Exchange` | src/busybox/archival/gzip.c:1215-1298 | Swapping lengths so that the heavier symbol is not the longer one stays a code and does not cost more |
| `Optimal.Join` | src/busybox/archival/gzip.c:1215-1298 | Two siblings at the deepest level can be replaced by their father, one bit shorter, saving exactly their weight |
| `Optimal.LowerBound` | src/busybox/archival/gzip.c:1215-1298 | No lengths within the Kraft bound cost less than the total weight of the nodes a greedy construction creates |
| `BuildTree.TreeIsOptimal` | src/busybox/archival/gzip.c:1079-1108 | If nothing was clipped the lengths cost no more than any lengths within the Kraft bound, of any maximum |
| `BuildTree.GenBitlen` | src/busybox/archival/gzip.c:1061-1146 | Kraft sum exactly 1 with no length above max_length, counts that agree with the lengths, opt_len and static_len grown by the exact cost, minimal cost whenever no leaf is deeper than max_length, and never a shorter code for a less frequent symbol |
| `BuildTree.Build` | src/busybox/archival/gzip.c:1215-1298 | From any frequencies (sum below 2^15): every symbol in use has a canonical code, lengths are at most max_length, opt_len and static_len grow by the exact bit cost including forced codes, the cost is minimal whenever fewer than two symbols are in use or the greedy tree is no deeper than max_length, and clipped or not a less frequent symbol never has a shorter code than a more frequent one |
| `BuildTree.CheapestByWeight` | src/busybox/archival/gzip.c:1061-1109 | Where no lengths cost less, a less frequent symbol has no shorter code: exchanging the two would cost less |
| `BuildTree.FewSymbols` | src/busybox/archival/gzip.c:1240-1255 | With no or one symbol in use, forcing a second code makes nothing longer than it has to be: the symbol has one bit |
| `PrefixCodes.KraftInequality` | src/busybox/archival/gzip.c:1215-1298 | Every prefix-free set of bit strings has Kraft sum at most 1 |
| `PrefixCodes.PrefixCodeCompetes` | src/busybox/archival/gzip.c:1215-1298 | The word lengths of any prefix code for the symbols in use are among the lengths that build_tree is compared with |
| `PrefixCodes.BestPrefixCode` | src/busybox/archival/gzip.c:1026-1108 | Lengths minimal within the Kraft bound cost no more than any prefix code for that frequency table |
| `RunLength.RunExpands` | src/busybox/archival/gzip.c:1329-1341 | A flushed run of `count` equal lengths expands, by section 3.2.7 of RFC 1951, to exactly that many lengths, and every repeat symbol is legal where it stands |
| `RunLength.EncodeExpands` | src/busybox/archival/gzip.c:1323-1352 | From any state of the max_count/min_count machine, what is still sent expands to the lengths still to come |
| `RunLength.RoundTrip` | src/busybox/archival/gzip.c:1360-1411 | The symbols sent for any list of code lengths expand to exactly that list |
| `RunLength.LengthsDecode` | src/busybox/archival/gzip.c:1360-1411 | The decoder of section 3.2.7 of RFC 1951 reads the sent bits as those code lengths and stops right behind them |
| `TreeSender.CountRun` | src/busybox/archival/gzip.c:1329-1339 | Each count grows by the number of times the run's symbols contain that symbol |
| `TreeSender.ScanTree` | src/busybox/archival/gzip.c:1307-1353 | Afterwards each bl_tree frequency has grown by the number of times that symbol occurs in what send_tree will send; only the guard cell of the tree changes |
| `TreeSender.SendCode` | src/busybox/archival/gzip.c:972 | The stream grows by the symbol's canonical code |
| `TreeSender.SendRun` | src/busybox/archival/gzip.c:1379-1397 | The stream grows by the run's symbols, codes and extra bits, agreeing with the run scan_tree counted |
| `TreeSender.SendTree` | src/busybox/archival/gzip.c:1360-1411 | The stream grows by exactly the symbols of the run-length code of lengths 0..max_code |
| `CodeTables.Tables.InitLengths` | src/busybox/archival/gzip.c:1898-1911 | For each match length 3..258 the code, its base and its extra bits agree with section 3.2.5 of RFC 1951; length 258 has code 285 and no extra bits |
| `CodeTables.Tables.InitShortDistances` | src/busybox/archival/gzip.c:1913-1920 | For each distance up to 256 the code, its base and its extra bits agree with section 3.2.5 of RFC 1951 |
| `CodeTables.Tables.InitLongDistances` | src/busybox/archival/gzip.c:1922-1928 | The same for distances above 256 in blocks of 128; the first half of the table is kept |
| `CodeTables.Tables.DCode` | src/busybox/archival/gzip.c:981-982 | For each distance below 2^15 the code is one of 30 and base plus extra bits can spell the distance |
| `CodeTables.Tables.constructor` | src/busybox/archival/gzip.c:1898-1929 | After the three loops the length and distance tables are complete |
| `Tokens.MatchReads` | src/busybox/archival/gzip.c:1557-1575 | Length code, extra bits, distance code and extra bits read back as the match they spell by section 3.2.5 of RFC 1951 |
| `StaticTrees.InitLiteral` | src/busybox/archival/gzip.c:1931-1957 | The static literal tree has the lengths of section 3.2.6 of RFC 1951 and their canonical codes |
| `StaticTrees.InitDistance` | src/busybox/archival/gzip.c:1959-1963 | The 30 static distance codes are the 5-bit canonical codes of section 3.2.6 of RFC 1951 |
| `StaticTrees.FixedDecodable` | src/busybox/archival/gzip.c:1931-1957 | The fixed lengths form a complete code within the Kraft bound, so the decoder can use them |
| `StaticTrees.FixedDistDecodable` | src/busybox/archival/gzip.c:1959-1963 | The 5-bit distance lengths are within the Kraft bound, so the decoder can use them |
| `Tokens.ItemReads` | src/busybox/archival/gzip.c:1552-1576 | The bits of a literal or a match read back as that literal or match, and reading stops right behind them |
| `Tokens.DataReads` | src/busybox/archival/gzip.c:1538-1581 | The bits of any list of tokens followed by the end code decode to the expansion of the tokens after any earlier output |
| `Tokens.ExpandPush` | src/busybox/archival/gzip.c:1482-1533 | Appending a token extends the expansion by what the token stands for and changes nothing before it |
| `Tokens.FreqPush` | src/busybox/archival/gzip.c:1484-1501 | Appending a token raises the count of its literal/length symbol, and of its distance symbol if it is a match, and no other |
| `Tokens.FreqSums` | src/busybox/archival/gzip.c:1482-1533 | Literal/length counts of a block add up to the number of tokens plus the end code, distance counts to no more than the tokens |
| `Tokens.ItemCost` | src/busybox/archival/gzip.c:1538-1581 | A token takes the lengths of its codes plus their extra bits |
| `Tokens.DataCost` | src/busybox/archival/gzip.c:1538-1581 | Emitting all tokens and the end code takes exactly the cost computed from the counts |
| `TokenBuffer.Buffer.Push` | src/busybox/archival/gzip.c:1484-1509 | The three buffers (l_buf, d_buf, flag_buf with its partial byte) then represent the old tokens followed by the new one |
| `TokenBuffer.RepresentsPush` | src/busybox/archival/gzip.c:1484-1509 | One byte in l_buf, at most one word in d_buf and the eighth flag completing a flag_buf byte extend the represented list by one token |
| `Coder.Coder.constructor` | src/busybox/archival/gzip.c:1884-1967 | ct_init gives complete tables, static trees with their canonical codes and an empty block |
| `Coder.Coder.InitBlock` | src/busybox/archival/gzip.c:993-1010 | All counts are those of an empty block, the end code counted once, and the buffers are empty |
| `Coder.CountToken` | src/busybox/archival/gzip.c:1485-1501 | The frequency tables become the counts of the tokens including the new one |
| `Coder.EstimateLength` | src/busybox/archival/gzip.c:1511-1520 | The estimate is 8 bits a token plus 5 and the extra bits for each distance, in bytes |
| `Coder.CtTally` | src/busybox/archival/gzip.c:1482-1533 | The block grows by this token, tables and buffers agree with it, and the result says exactly when the block is to end; without it the buffers have room for another token |
| `CompressBlock.ReadingStep` | src/busybox/archival/gzip.c:1549-1578 | Reading flag, l_buf and d_buf in step yields the next token of the represented list, whatever mix of literals and matches |
| `CompressBlock.SendMatch` | src/busybox/archival/gzip.c:1557-1575 | The stream grows by length code, length extra bits, distance code and distance extra bits of this match |
| `CompressBlock.Send` | src/busybox/archival/gzip.c:1538-1581 | The stream grows by the bits of every token tallied, in order, and the end code, and nothing else |
| `DynTrees.LastLength` | src/busybox/archival/gzip.c:1432-1439 | Every code length in bl_order beyond max_blindex is 0, the one at max_blindex is not, and at least 4 are sent |
| `DynTrees.ScanTrees` | src/busybox/archival/gzip.c:1422-1424 | The bl_tree counts are the occurrences of each symbol in what will be sent for both trees together |
| `DynTrees.BuildBlTree` | src/busybox/archival/gzip.c:1418-1445 | opt_len grows by exactly the bits that send_all_trees will emit, and the code-length code can send every run-length symbol of both trees |
| `DynTrees.SendAllTrees` | src/busybox/archival/gzip.c:1453-1475 | The stream grows by the three counts, the code-length lengths in bl_order and both run-length coded trees |
| `DynTrees.SendLengthLengths` | src/busybox/archival/gzip.c:1464-1467 | The stream grows by the lengths in bl_order, three bits each |
| `DynHeader.ClReadsAll` | src/busybox/archival/gzip.c:1463-1467 | The 3-bit lengths, though cut after the last one in use, read back as all 19 |
| `DynHeader.TablesRead` | src/busybox/archival/gzip.c:1453-1475 | The header of a dynamic block reads back as exactly the two lists of code lengths (section 3.2.7 of RFC 1951) |
| `DynHeader.SymCost` | src/busybox/archival/gzip.c:1307-1411 | The run-length symbols take exactly the bits that the counts of scan_tree predict, extra bits included |
| `BlockReads.StoredReads` | src/busybox/archival/gzip.c:1643-1647 | A stored block reads back, by section 3.2.4 of RFC 1951, as its data behind any earlier output |
| `BlockReads.StaticReads` | src/busybox/archival/gzip.c:1649-1652 | A static block reads back as the expansion of its tokens |
| `BlockReads.DynReads` | src/busybox/archival/gzip.c:1653-1658 | A dynamic block, tables included, reads back as the expansion of its tokens |
| `FlushBlock.BlockCosts` | src/busybox/archival/gzip.c:1596-1613 | The two predicted costs equal the bits of the token data under the dynamic and under the static codes |
| `FlushBlock.StaticBound` | src/busybox/archival/gzip.c:1649-1652 | The static form never takes more than 32 bits a token |
| `FlushBlock.SaveFlags` | src/busybox/archival/gzip.c:1594 | The last, partial flag byte is stored, so flag_buf holds every flag |
| `FlushBlock.BuildTwoTrees` | src/busybox/archival/gzip.c:1596-1604 | Both trees code every token and opt_len and static_len are the bits of the token data in the two forms |
| `FlushBlock.BuildTrees` | src/busybox/archival/gzip.c:1594-1609 | All three trees are ready to send, opt_len and static_len equal the bits the two forms will take |
| `FlushBlock.SendStored` | src/busybox/archival/gzip.c:1643-1647 | A stored block reads back as the data and takes the aligned length |
| `FlushBlock.SendStatic` | src/busybox/archival/gzip.c:1649-1652 | A static block reads back as the expansion of the tokens and takes 3 plus the predicted bits |
| `FlushBlock.SendDynamic` | src/busybox/archival/gzip.c:1653-1658 | A dynamic block reads back as the expansion of the tokens and takes exactly 3 + opt_len bits |
| `FlushBlock.SendBest` | src/busybox/archival/gzip.c:1611-1660 | The block is sent in the form of fewest bytes, stored only if its bytes are at hand and on a tie the earlier of stored, static, dynamic; the header says which; compressed_len and the stream grow by exactly 3 + opt_len, 3 + static_len or the aligned stored length; and the block reads back as the expansion of the tokens |
| `FlushBlock.FlushBlock` | src/busybox/archival/gzip.c:1589-1671 | The new bits are one block that decodes to the expansion of all tokens tallied; the token buffer is empty again; at the end of the file the stream is padded and the returned total is its length in bytes |
| `FlushBlock.WindUp` | src/busybox/archival/gzip.c:1663-1670 | At the end the stream is padded to a byte and the total returned is its length in bytes |
| `Hash.Forgets` | src/busybox/archival/gzip.c:1680 | Three updates forget whatever the hash was before: it depends on the last three bytes alone |
| `Hash.Rolls` | src/busybox/archival/gzip.c:1710-1715 | One update with the next byte turns the hash of three bytes into the hash of the next three |
| `Hash.ThirdByte` | src/busybox/archival/gzip.c:639-645 | Equal hashes and equal first two bytes imply an equal third byte, which is why it need not be compared |
| `LongestMatch.QuickTest` | src/busybox/archival/gzip.c:629-637 | The four-byte test rejects no candidate that matches more than best_len bytes |
| `LongestMatch.FirstThree` | src/busybox/archival/gzip.c:639-645 | A candidate of the same hash that passes the test on two bytes agrees on three |
| `LongestMatch.Compare` | src/busybox/archival/gzip.c:645-657 | The comparison loop finds exactly the number of equal bytes, up to 258 |
| `LongestMatch.NextCandidate` | src/busybox/archival/gzip.c:667-668 | Every live link leads to an earlier position with the same three-byte hash, within the window |
| `LongestMatch.VisitedStep` | src/busybox/archival/gzip.c:625-668 | One turn of the loop keeps the best of the candidates visited so far, including the stops on a nice match and on the chain bound |
| `LongestMatch.LongestIsMaximal` | src/busybox/archival/gzip.c:597-671 | The best length is reached by a visited candidate and no visited candidate matches more |
| `LongestMatch.VisitedAll` | src/busybox/archival/gzip.c:597-671 | The walk is complete: a string of equal hash within reach is visited, unless at least as many newer ones as the chain bound allows have that hash |
| `LongestMatch.VisitedNewestFirst` | src/busybox/archival/gzip.c:597-671 | The walk starts at the head and visits every string once, the newest first |
| `LongestMatch.SearchIsComplete` | src/busybox/archival/gzip.c:597-671 | A string in the window that matches further than the result is older than as many strings of its hash as the chain bound allows; with fewer of them the result is the longest match in the window |
| `LongestMatch.NothingInReach` | src/busybox/archival/gzip.c:1738-1740 | When the head is 0 or too far away, no string in the window matches three bytes |
| `LongestMatch.LongestMatch` | src/busybox/archival/gzip.c:597-671 | The result is the longest true match of all bytes among the candidates the chain bound allows, above prev_length, else prev_length |
| `Dictionary.InsertLinked` | src/busybox/archival/gzip.c:1710-1715 | INSERT_STRING keeps the chains exact: every head is the last string of its hash and every link leads to the last older one, or is 0 when no string after position 0 has the hash, with head aliasing the upper half of prev |
| `Dictionary.InsertString` | src/busybox/archival/gzip.c:1710-1715 | The dictionary then holds the string at this position too, in exact chains; the rolling hash is ready for the next one, and the old head is the last earlier string of the same hash or 0 when there is none after position 0 |
| `Dictionary.InsertStrings` | src/busybox/archival/gzip.c:1765-1778 | All strings of a match are inserted in exact chains, and the rolling hash is ready for the one after it |
| `Dictionary.DictSlides` | src/busybox/archival/gzip.c:553-569 | Sliding window and links by WSIZE keeps the chains exact for the strings that are left: no string still in the window drops out of its chain |
| `Dictionary.DictFrame` | src/busybox/archival/gzip.c:573-580 | Reading new bytes behind the positions inserted disturbs no chain |
| `Dictionary.SlideLinks` | src/busybox/archival/gzip.c:559-569 | Each link moves down by WSIZE or becomes 0, in head and in prev alike |
| `Window.Input.FileRead` | src/busybox/archival/gzip.c:422-435 | The bytes read are the next bytes of the input, the checksum covers all read so far and isize counts them modulo 2^32; nothing beside them changes |
| `Window.Window.Slide` | src/busybox/archival/gzip.c:547-571 | After the slide the window still holds the input from the new offset on; strstart, match_start and block_start move with it, even below 0 |
| `Window.Window.Refill` | src/busybox/archival/gzip.c:573-580 | The lookahead grows by the next bytes of the input or the end is noted; hashes and chains stay valid |
| `Window.Window.FillWindow` | src/busybox/archival/gzip.c:533-581 | Stream positions of strstart, block_start and match_start do not move, and the lookahead grows unless the input has ended |
| `Window.Window.FillUp` | src/busybox/archival/gzip.c:1808-1814 | Afterwards there are MIN_LOOKAHEAD bytes ahead or the input has ended; stream positions do not move |
| `Window.Window.LmInit` | src/busybox/archival/gzip.c:1839-1875 | The window holds the first bytes of the input, the dictionary is empty and the rolling hash covers the first two bytes |
| `Crc.StepsLinear` | src/busybox/libbb/crc32.c:32-40 | Eight shift-and-xor steps of a xor of two words are the xor of their steps |
| `Crc.TableStep` | src/busybox/libbb/crc32.c:57-66 | One table look-up and shift equals eight bit steps, for every 32-bit word |
| `Crc.FillTable` | src/busybox/libbb/crc32.c:23-44 | Each of the 256 entries is eight bit steps of its index |
| `Crc.UpdateCrc` | src/busybox/libbb/crc32.c:57-66 | The table-driven loop equals the bitwise CRC-32 of section 8 of RFC 1952 over the bytes, from any value |
| `Crc.FeedConcat` | src/busybox/archival/gzip.c:411-414 | Feeding two pieces one after the other equals feeding their concatenation |
| `Deflate.CopyRepeats` | src/busybox/archival/gzip.c:1745-1763 | Copying from a distance where the input repeats itself yields the next bytes of the input, overlapping copies included |
| `Deflate.LiteralStands` | src/busybox/archival/gzip.c:1786-1797 | Appending the next input byte keeps the tokens standing for exactly the bytes since block_start |
| `Deflate.MatchStands` | src/busybox/archival/gzip.c:1761-1781 | Appending a match the input repeats keeps the tokens standing for exactly the bytes since block_start |
| `Deflate.FoundRepeats` | src/busybox/archival/gzip.c:1738-1757 | A match longer than before, clipped to the lookahead, is a true repetition of the input at a distance from 1 to MAX_DIST |
| `Deflate.NextBlock` | src/busybox/archival/gzip.c:1695-1702 | A stream that decodes to a prefix of the input, plus a non-final block, decodes to the longer prefix |
| `Deflate.LastBlock` | src/busybox/archival/gzip.c:1819 | The final block completes the stream for the decoder |
| `Deflate.Deflater.TallyMatch` | src/busybox/archival/gzip.c:1763 | After the call the tokens stand for the bytes up to the end of the match |
| `Deflate.Deflater.TallyLiteral` | src/busybox/archival/gzip.c:1792 | After the call the tokens stand for one more byte of the input |
| `Deflate.Deflater.Flush` | src/busybox/archival/gzip.c:1695-1702 | The bits sent so far then decode to the whole input up to strstart, and the new block starts there with no tokens |
| `Deflate.Deflater.FindMatch` | src/busybox/archival/gzip.c:1738-1757 | A length above prev_length is a true repetition within the lookahead at a legal distance; no visited candidate is longer; and nothing in the window matches for more bytes of the lookahead, except strings older than the number of strings of their hash that the chain bound allows, and three-byte matches dropped as too far |
| `Deflate.Deflater.EmitMatch` | src/busybox/archival/gzip.c:1761-1785 | Emitting the previous match covers each of its bytes once, inserts every position of it and keeps the whole invariant |
| `Deflate.Deflater.EmitLiteral` | src/busybox/archival/gzip.c:1786-1797 | Emitting the previous byte keeps the invariant with the current match pending |
| `Deflate.Deflater.Wait` | src/busybox/archival/gzip.c:1798-1805 | Deferring the decision keeps the invariant with one byte pending |
| `Deflate.Deflater.Step` | src/busybox/archival/gzip.c:1726-1805 | Every turn of the lazy-matching loop keeps the invariant: tokens since block_start expand to the bytes up to strstart, less the pending byte, and the lookahead shrinks |
| `Deflate.Deflater.ReadAhead` | src/busybox/archival/gzip.c:1808-1814 | Refilling the window keeps the invariant and moves no stream position |
| `Deflate.Deflater.Finish` | src/busybox/archival/gzip.c:1816-1819 | The pending byte and the final block complete the stream: it decodes to every byte read |
| `Deflate.Deflater.Deflate` | src/busybox/archival/gzip.c:1717-1820 | For every input, the bits written decode, with a decoder for section 3.2.3 of RFC 1951, to exactly the bytes read, whichever mix of blocks was chosen; all bytes are read unless a read fails |
| `Gzip.Put32` | src/busybox/archival/gzip.c:400-404 | The stream grows by the 32 bits of the value, least significant first |
| `Gzip.PutHeader` | src/busybox/archival/gzip.c:1985-1996 | The first 80 bits are a header without optional fields that carries the time stamp (section 2.3.1 of RFC 1952) |
| `Gzip.Compress` | src/busybox/archival/gzip.c:1988-1998 | From a fresh coder and window the stream decodes to exactly the bytes read, behind whatever header stands before it |
| `Gzip.MemberDecodes` | src/busybox/archival/gzip.c:1975-2005 | Header, finished stream, CRC-32 and length modulo 2^32 form a member that the decoder for section 2.3 of RFC 1952 accepts and decodes |
| `Gzip.PutTrailer` | src/busybox/archival/gzip.c:2000-2004 | After the trailer the bytes flushed are a complete member for the bytes read |
| `Gzip.Zip` | src/busybox/archival/gzip.c:1975-2005 | For every input and time stamp, decoding the bytes written with checks of CRC-32 and length returns exactly the bytes read, and the header carries the time stamp; all bytes are read unless a read fails |
| `LzoRewrite.StepLocal` | src/busybox/archival/lzop.c:103-353 | A decoding step depends only on the bytes it consumes |
| `LzoRewrite.StepsFrom` | src/busybox/archival/lzop.c:103-353 | Decoding from a position depends only on the bytes from there on |
| `LzoRewrite.TrailingChange` | src/busybox/archival/lzop.c:325-338 | Changing the low two bits of a match's second last byte changes only how many literals follow it |
| `LzoRewrite.AbsorbShort` | src/busybox/archival/lzop.c:183-191 | A match with 3 trailing literals decodes like the match, its literals and the short match the bytes replaced |
| `LzoRewrite.AbsorbRun` | src/busybox/archival/lzop.c:193-215 | A literal run of the summed length decodes like the trailing literals, the short match and the old run |
| `LzoRewrite.AbsorbBetween` | src/busybox/archival/lzop.c:237-251 | One long literal run decodes like two runs with a 3-byte match between them |
| `LzoOptimize.MarkedDecodes` | src/busybox/archival/lzop.c:103-353 | While litp, lit, ip and the output agree with the rewritten bytes, the whole rewritten buffer decodes like the original from ip on |
| `LzoOptimize.ShortRewrite` | src/busybox/archival/lzop.c:183-294 | The m1_a and m3_a rewrites keep that agreement |
| `LzoOptimize.RunRewrite` | src/busybox/archival/lzop.c:193-316 | The m1_b and m3_b rewrites keep that agreement, with litp moved to the new run |
| `LzoOptimize.BetweenRewrite` | src/busybox/archival/lzop.c:237-251 | The m2 rewrite keeps that agreement |
| `LzoLoop.Copy2` | src/busybox/archival/lzop.c:72-79 | The two bytes written are those an overlapping copy from the distance would produce; no other byte changes |
| `LzoLoop.Copy3` | src/busybox/archival/lzop.c:81-95 | The three bytes written are those an overlapping copy would produce, for distances 1, 2 and more; no other byte changes |
| `LzoLoop.ShiftUp` | src/busybox/archival/lzop.c:205-208 | The literals move one byte up, as memmove of an overlapping range does; no other byte changes |
| `LzoLoop.Optimizer.CopyLiterals` | src/busybox/archival/lzop.c:146-152 | The output grows by exactly those input bytes |
| `LzoLoop.Optimizer.CopyMatch` | src/busybox/archival/lzop.c:319-322 | The output grows as an overlapping copy from the distance does |
| `LzoLoop.MakeRun` | src/busybox/archival/lzop.c:200-211 | The short run is cleared, the literals move up one byte, the match becomes literals and the new length is written; nothing from ip on changes |
| `LzoLoop.MakeOneRun` | src/busybox/archival/lzop.c:241-246 | The match becomes three literals and the earlier run's length covers both runs; nothing from ip on changes |
| `LzoLoop.Optimizer.ReadMatch` | src/busybox/archival/lzop.c:174-280 | Distance, length and end marker are read as the LZO1X format says, in all four match classes |
| `LzoLoop.Optimizer.ReadRun` | src/busybox/archival/lzop.c:137-145 | The length of a literal run, extended by zero bytes, is read as the format says |
| `LzoLoop.Optimizer.LiteralRun` | src/busybox/archival/lzop.c:137-152 | Copying a literal run reaches the state after the run |
| `LzoLoop.Optimizer.PlainMatch` | src/busybox/archival/lzop.c:319-338 | A match left alone and its trailing literals are copied as the decoder would and remembered in litp and lit |
| `LzoLoop.Optimizer.IntoShort` | src/busybox/archival/lzop.c:183-294 | After the rewrite and the copies, output, position and rewritten bytes agree |
| `LzoLoop.Optimizer.IntoRun` | src/busybox/archival/lzop.c:193-316 | After the rewrite and the copies of match and run, output, position and rewritten bytes agree |
| `LzoLoop.Optimizer.IntoOneRun` | src/busybox/archival/lzop.c:237-251 | The same for a match between two long runs |
| `LzoLoop.Optimizer.DoMatch` | src/busybox/archival/lzop.c:172-339 | One match instruction, rewritten or not, keeps the agreement, or the end marker is found with the decoder's output complete |
| `LzoLoop.Optimizer.ChooseRewrite` | src/busybox/archival/lzop.c:179-318 | Whichever of the five rewrites the guards choose, or none, output, position and rewritten bytes agree |
| `LzoLoop.Optimizer.Begin` | src/busybox/archival/lzop.c:126-131 | A first byte above 17 is read as the short or long first run it stands for |
| `LzoLoop.Optimizer.Loop` | src/busybox/archival/lzop.c:133-353 | Over the whole loop the buffer's decoding never changes; the return value says whether the marker was found at the end of the input |
| `LzoLoop.Optimize` | src/busybox/archival/lzop.c:103-353 | For every stream that decodes up to its end marker, the rewritten buffer has the same length and decodes to the same bytes; the output buffer holds them; OK is returned exactly when the marker ends the input |
| `Adler.NoOverflow` | src/busybox/archival/lzop.c:464-491 | For at most 5552 bytes and any 16-bit starting sums, 32-bit arithmetic never wraps |
| `Adler.ReduceLate` | src/busybox/archival/lzop.c:464-491 | Reducing once after the bytes equals reducing after each byte |
| `Adler.ReducedConcat` | src/busybox/archival/lzop.c:480-489 | Sums reduced after each byte continue from one piece to the next |
| `Adler.NmaxIsLargest` | src/busybox/archival/lzop.c:467-472 | With 5553 bytes the deferred reduction goes wrong for some input: 5552 is the largest count |
| `Adler.Round` | src/busybox/archival/lzop.c:481-488 | A block of at most 5552 bytes gives the sums reduced after each byte |
| `Adler.Adler32` | src/busybox/archival/lzop.c:464-491 | For any buffer and starting value the result is the checksum of section 8.2 of RFC 1950; a null buffer gives 1 |
| `Adler.ChecksumConcat` | src/busybox/archival/lzop.c:464-491 | Checksumming in pieces equals checksumming the concatenation |
| `VersionKey.CompareAnti` | src/busybox/archival/dpkg.c:228-265 | Comparing keys in the other order negates the result |
| `VersionKey.CompareTrans` | src/busybox/archival/dpkg.c:228-265 | The order on keys is transitive, and strict if either comparison is |
| `VersionKey.EqualKeys` | src/busybox/archival/dpkg.c:228-265 | Two keys compare equal if and only if they agree up to trailing zeros |
| `VersionKey.EqualStrings` | src/busybox/archival/dpkg.c:228-265 | Two strings compare equal if and only if they have the same non-digit parts and numbers of the same value between them, a string that has ended going on with empty parts and zeros |
| `VersionKey.CompareFull` | src/busybox/archival/dpkg.c:228-265 | A key that starts with an empty non-digit part compares like the full key, so the loop may start either way |
| `VersionKey.LongerIsLarger` | src/busybox/archival/dpkg.c:250-260 | Without leading zeros the number with more digits is the larger |
| `DpkgVersion.CompareNonDigits` | src/busybox/archival/dpkg.c:236-243 | The first loop decides the order of the non-digit parts or reduces the comparison to what follows them |
| `DpkgVersion.SkipZeros` | src/busybox/archival/dpkg.c:245-248 | Skipping leading zeros does not change the value of the number that follows |
| `DpkgVersion.CommonDigits` | src/busybox/archival/dpkg.c:250-256 | The first difference among the common digits decides the order of the two numbers so far |
| `DpkgVersion.CompareNumbers` | src/busybox/archival/dpkg.c:250-262 | The digit loops decide the order of the two numbers, of any length, or reduce the comparison to what follows them |
| `DpkgVersion.VersionComparePart` | src/busybox/archival/dpkg.c:228-265 | The sign is that of the lexicographic comparison of alternating non-digit and number parts, for all strings, a missing one read as empty |
| `DpkgVersion.VersionCompare` | src/busybox/archival/dpkg.c:271-322 | The sign is that of comparing epoch, then upstream version, then revision (section 5.6.12 of the Debian Policy Manual) |
| `DpkgVersion.VersionsRefl` | src/busybox/archival/dpkg.c:271-322 | Every version equals itself |
| `DpkgVersion.VersionsAnti` | src/busybox/archival/dpkg.c:271-322 | Swapping the versions negates the result |
| `DpkgVersion.VersionsTrans` | src/busybox/archival/dpkg.c:271-322 | The order on versions is transitive, and strict if either comparison is |
| `DpkgVersion.VersionsEqual` | src/busybox/archival/dpkg.c:271-322 | Two versions are equal if and only if their epochs are and both strings have the same parts: only leading zeros and trailing zero numbers are ignored |
| `DpkgVersion.TestVersion` | src/busybox/archival/dpkg.c:324-342 | The result is whether the relation holds in that order; any other operator gives false |
| `DpkgVersion.RelationsConsistent` | src/busybox/archival/dpkg.c:324-342 | Exactly one of less, equal and more holds, the two weak relations are their unions and the others' negations, and each relation is the converse of its mirror |
| `DpkgVersion.RelationsCompose` | src/busybox/archival/dpkg.c:324-342 | The relations chain as an order does |
| `Probing.ProbesDiffer` | src/busybox/archival/dpkg.c:177-194 | With a prime size and a step from 1 to size-1 no two of the first `size` probes fall on the same slot |
| `Probing.ProbeCovers` | src/busybox/archival/dpkg.c:177-194 | The decrementing probe reaches every slot within `size` steps |
| `Probing.NamePrime` | src/busybox/archival/dpkg.c:76 | 16381 is a prime number |
| `Probing.PackagePrime` | src/busybox/archival/dpkg.c:86 | 10007 is a prime number |
| `Probing.StatusPrime` | src/busybox/archival/dpkg.c:104 | 8191 is a prime number |
| `DpkgHash.MakeHash` | src/busybox/archival/dpkg.c:157-174 | Start is below the prime and the step is between 1 and prime-1, both functions of the string alone |
| `DpkgHash.OnePlace` | src/busybox/archival/dpkg.c:177-194 | No string is stored in two slots |
| `DpkgHash.SearchStops` | src/busybox/archival/dpkg.c:177-194 | With a free slot or the string stored, the probe meets it or a free slot within `size` steps |
| `DpkgHash.NotStored` | src/busybox/archival/dpkg.c:177-194 | A free slot on the probe sequence means the string is stored nowhere |
| `DpkgHash.StoreKeeps` | src/busybox/archival/dpkg.c:177-194 | Storing at that slot keeps every string reachable on its own probe sequence |
| `DpkgHash.NameTable.Search` | src/busybox/archival/dpkg.c:177-194 | The slot returned holds the string; the table is unchanged if it was stored, else exactly that free slot is filled |
| `DpkgHash.RoomStep` | src/busybox/archival/dpkg.c:177-194 | Storing a string takes one free slot and leaves one string fewer to store, so room for a set of strings is kept |
| `DpkgHash.Intern` | src/busybox/archival/dpkg.c:177-194 | Among searches for a set of strings there is room before and after each, the index holds the string and no stored string moves |
| `DpkgHash.SearchAll` | src/busybox/archival/dpkg.c:177-194 | Over any run of calls, with any repetitions, equal strings get the same index and different strings different ones, and every string stored before keeps its slot; there must be a free slot for each string not stored yet, without which the source loops for ever |
| `DpkgTables.SearchPackage` | src/busybox/archival/dpkg.c:344-365 | The slot found holds a package of that name whose version stands in the relation, or is free and then no such package is anywhere in the table; also after the name table has grown |
| `DpkgTables.PackageSearchStops` | src/busybox/archival/dpkg.c:344-365 | With a free slot, or with a package that fits even in a full table, the probe meets one of them within `size` steps |
| `DpkgTables.AddPackage` | src/busybox/archival/dpkg.c:673-676 | Exactly one slot changes, to the new node; a package of the same name and an equal version is replaced, in a full table too, else a free slot is used; the table stays searchable |
| `DpkgTables.PutKeeps` | src/busybox/archival/dpkg.c:673-676 | Storing a node on its own probe sequence keeps every package reachable |
| `DpkgTables.SeenAll` | src/busybox/archival/dpkg.c:344-365 | When the probe reaches a free slot every package of that name has been looked at |
| `DpkgTables.SearchStatus` | src/busybox/archival/dpkg.c:199-215 | The slot found belongs to the package name, or is free and then no status of that name exists; in a full table the status is still found if it is there |
| `DpkgTables.AddStatus` | src/busybox/archival/dpkg.c:776-778 | The status is stored under its package's name and the table stays searchable |
| `DpkgTables.PackagePutView` | src/busybox/archival/dpkg.c:673-676 | Storing or replacing a package leaves the status table searchable, although its keys are read through the package table |
| `DpkgTables.PackagesGrow` | src/busybox/archival/dpkg.c:606-677 | Interning more strings keeps every package reachable, although packages are found through the name table |
| `DpkgTables.StatusGrows` | src/busybox/archival/dpkg.c:754-783 | Interning more strings keeps every status reachable |
| `DpkgTables.EmptyTables` | src/busybox/archival/dpkg.c:110-123 | The zeroed tables at the start are in order; the size of the status table is prime |
| `DpkgDeps.TestWord` | src/busybox/archival/dpkg.c:680-700 | get_status interns the word of the status line and the test compares its index with that of the expected word, which is the same as comparing the words; false when the package has no status; the tables stay as the phase needs them |
| `DpkgDeps.SameWord` | src/busybox/archival/dpkg.c:690-700 | Two interned words have the same index exactly when they are equal, and interning them leaves packages and statuses alone |
| `DpkgDeps.PackageSatisfies` | src/busybox/archival/dpkg.c:951-966 | A plain dependency needs the wish to install, a pre-dependency the state installed |
| `DpkgDeps.SearchForProvides` | src/busybox/archival/dpkg.c:383-396 | The least provider after the start is returned, or -1 exactly when there is none |
| `DpkgDeps.SearchProviders` | src/busybox/archival/dpkg.c:1122-1135 | The loop finds whether any package that provides the name satisfies the dependency |
| `DpkgDeps.TestEdge` | src/busybox/archival/dpkg.c:1101-1135 | An edge counts as met exactly when a package matching it satisfies it, or a provider of its name does |
| `DpkgDeps.AtRoot` | src/busybox/archival/dpkg.c:1088-1095 | At an EDGE_OR root the counters stand at the first of its alternatives |
| `DpkgDeps.AtOther` | src/busybox/archival/dpkg.c:1096-1105 | An edge that is no dependency leaves the place among the groups right, although the counter becomes 1 |
| `DpkgDeps.AtAlternative` | src/busybox/archival/dpkg.c:1103-1163 | A met alternative skips exactly the rest of its group; the last unmet one means the group fails; otherwise the next alternative is considered |
| `DpkgDeps.AtAlone` | src/busybox/archival/dpkg.c:1096-1163 | A single dependency is a group of its own |
| `DpkgDeps.CheckEdges` | src/busybox/archival/dpkg.c:1084-1164 | The loop with its index skipping succeeds exactly when every group has a met alternative: no group is dropped or counted twice |
| `DpkgDeps.CheckDependencies` | src/busybox/archival/dpkg.c:1053-1165 | The phase completes without dying if and only if every package wanted for install has all its dependency groups met, although get_status keeps adding strings to the name table meanwhile |
| `DpkgSplit.AddAlternative` | src/busybox/archival/dpkg.c:447-498 | The edge carries name, relation and version parsed from the text; an illegal relation is reported exactly then; room is needed only for strings not stored yet |
| `DpkgSplit.AddAlternatives` | src/busybox/archival/dpkg.c:447-500 | One edge for each alternative, in order; a failure exactly when one of them is illegal |
| `DpkgSplit.AddPart` | src/busybox/archival/dpkg.c:432-500 | A part with several alternatives becomes a root with their number followed by one edge each, a single one just its edge |
| `DpkgSplit.AddSplitDependencies` | src/busybox/archival/dpkg.c:417-507 | The edges added are, in order, the groups of the comma-separated parts; illegal input is reported exactly when a part is illegal; names already stored keep their index and need no room |
| `DpkgSplit.PartsLaidOut` | src/busybox/archival/dpkg.c:417-507 | What one call of add_split_dependencies adds has the shape the dependency check relies on, and its edges refer to names that exist |
| `DpkgIndex.FillEntry` | src/busybox/archival/dpkg.c:631-663 | One field extends the node: its name or version is the interned value, or its edges grow by exactly the groups of the field |
| `DpkgIndex.FillNode` | src/busybox/archival/dpkg.c:606-667 | The node has the last name and version of the stanza and the groups of all its relation fields in order; it fails exactly when a relation is illegal |
| `DpkgIndex.FieldsLaidOut` | src/busybox/archival/dpkg.c:606-667 | The groups of all fields of a package together have the shape the dependency check relies on |
| `DpkgDatabase.StillHas` | src/busybox/archival/dpkg.c:673-676 | Storing a package loses none, except to one of the same name and an equal version |
| `DpkgDatabase.PackageStep` | src/busybox/archival/dpkg.c:673-676 | Storing a package keeps room for every package of the file that is still missing |
| `DpkgDatabase.TablesGrow` | src/busybox/archival/dpkg.c:754-783 | More strings disturb neither the three tables nor the room in them |
| `DpkgDatabase.SourcedLaidOut` | src/busybox/archival/dpkg.c:606-677 | Packages filled from stanzas are laid out as check_deps needs them |
| `DpkgDatabase.SlotFits` | src/busybox/archival/dpkg.c:673-676 | The slot found by name index and an equal version belongs to the stanza's package, and a free slot means that no stored stanza describes it |
| `DpkgDatabase.PackagesPush` | src/busybox/archival/dpkg.c:673-676 | Storing a node there makes the packages held those of the last stanza of each package, the new stanza included |
| `DpkgDatabase.LinesPush` | src/busybox/archival/dpkg.c:754-783 | A stored status line is the one found for its name from then on, and those of the other names stay |
| `DpkgDatabase.Database.constructor` | src/busybox/archival/dpkg.c:110-123 | The empty tables are in order and have room for as many strings, packages and statuses as they have slots, less the spare ones |
| `DpkgDatabase.Database.Index` | src/busybox/archival/dpkg.c:763-781 | One stanza: it joins the stanzas the tables hold, so that afterwards every package is that of its last stanza, every status line that of the last stanza of its name, and nothing else changes; it fails exactly at an illegal relation, and a stanza without a version changes no package |
| `DpkgDatabase.Database.Store` | src/busybox/archival/dpkg.c:673-781 | Exactly one package slot takes the node, that of the same package or a free one if there is none; the status line is found under the name and no other line is lost |
| `DpkgFile.IndexAll` | src/busybox/archival/dpkg.c:754-783 | Any run of stanzas: the tables then hold all of them, each package as in its last stanza, each status line as in the last stanza of its name; it fails exactly at an illegal relation |
| `DpkgFile.SameGood` | src/busybox/archival/dpkg.c:951-966 | The state word that check_deps finds for a name is that of the last status line of the name in the file |
| `DpkgFile.ProvidesStanza` | src/busybox/archival/dpkg.c:383-396 | A stored package provides a name exactly when a provides field of its stanza lists it |
| `DpkgFile.SameMet` | src/busybox/archival/dpkg.c:1101-1134 | A dependency edge is satisfied in the tables exactly when the alternative it was made from is met by the text of the file |
| `DpkgFile.MetStanza` | src/busybox/archival/dpkg.c:1084-1164 | All groups of a stored package are met exactly when every alternative list of its stanza has an alternative met by the file |
| `DpkgFile.TablesDecide` | src/busybox/archival/dpkg.c:1053-1165 | What the phase decides over hash tables and indices is what the file says in names, versions and status words |
| `DpkgFile.CheckStatusFile` | src/busybox/archival/dpkg.c:754-1165 | From empty tables through a whole status file to the end of the dependency phase: the answer is true if and only if every current package of the file that is to be installed has all its dependencies met by the file; there is none exactly when a relation is illegal |
| `ExprValue.NumeralRoundTrip` | src/busybox/coreutils/expr.c:155-181 | Reading the decimal digits of a number gives the number |
| `ExprValue.DecimalRoundTrip` | src/busybox/coreutils/expr.c:155-181 | tostring followed by toarith returns the integer, negative ones included |
| `ExprEval.ArithmeticCodes` | src/busybox/coreutils/expr.c:225-244 | The computation chosen by the operator code is that of the operator's spelling, errors for non-numbers and division by zero included |
| `ExprEval.CompareCodes` | src/busybox/coreutils/expr.c:195-221 | The comparison chosen by code is that of the spelling, numeric when both are numbers, else as strings |
| `ExprEval.Evaluator.NextArg` | src/busybox/coreutils/expr.c:186-191 | Non-zero exactly when the next argument is this string, and then its code |
| `ExprEval.Evaluator.NextOf` | src/busybox/coreutils/expr.c:384-515 | An operator of the level is recognised exactly when the next argument is one of its spellings |
| `ExprEval.Evaluator.Eval` | src/busybox/coreutils/expr.c:500-515 | Or-level: consumes what the grammar's level consumes and gives its value or error; ends on every token list |
| `ExprEval.Evaluator.Eval1` | src/busybox/coreutils/expr.c:480-496 | And-level: the same |
| `ExprEval.Evaluator.Eval2` | src/busybox/coreutils/expr.c:450-476 | Comparison level: the same |
| `ExprEval.Evaluator.Eval3` | src/busybox/coreutils/expr.c:426-446 | Sum level: the same |
| `ExprEval.Evaluator.Eval4` | src/busybox/coreutils/expr.c:402-422 | Product level: the same |
| `ExprEval.Evaluator.Eval5` | src/busybox/coreutils/expr.c:384-398 | Match level: the same |
| `ExprEval.Evaluator.Eval6` | src/busybox/coreutils/expr.c:319-379 | Keywords: quote, length, match, index and substr with their operands: the same |
| `ExprEval.Evaluator.Eval7` | src/busybox/coreutils/expr.c:295-315 | Literals and parentheses: the same, with a syntax error for a missing operand or bracket |
| `ExprPrints.WholeTree` | src/busybox/coreutils/expr.c:500-515 | A tree printed with the fewest parentheses and quotes evaluates to its left-associative value or error and consumes all tokens |
| `ExprPrints.SparingIsShortest` | src/busybox/coreutils/expr.c:295-515 | No legal way to write a tree is shorter than the sparing one |
| `ExprPrints.PrintsApart` | src/busybox/coreutils/expr.c:295-515 | No two trees are printed alike |
| `ExprParses.FitsLevel` | src/busybox/coreutils/expr.c:295-515 | A level gives a value only where a legal way to write some tree stands, and where one stands it gives the value or the first error of the tree and the position after it |
| `ExprParses.Taken` | src/busybox/coreutils/expr.c:295-515 | At every level, a tree written in any legal way is taken exactly as it was written, whatever may follow it there |
| `ExprParses.LegalIsRead` | src/busybox/coreutils/expr.c:500-535 | Every tree written in any legal way, with redundant parentheses and quotes or without, evaluates to its value or error and consumes all tokens |
| `ExprParses.OneReading` | src/busybox/coreutils/expr.c:295-515 | The grammar is unambiguous: the arguments fix the way they were written and the tree |
| `ExprParses.Accepted` | src/busybox/coreutils/expr.c:500-535 | Every argument list accepted as a whole is a legal way to write some tree, with its value |
| `ExprEval.Run` | src/busybox/coreutils/expr.c:518-535 | For all arguments: value and exit status 0 or 1, or an error and 2; on any legal way to write any tree exactly the value or error of the tree; and nothing else is accepted |
| `BcbText.LinesOfJoined` | src/recovery/main.c:218-224 | Splitting joined lines gives the lines back, with or without the last newline |
| `BcbText.CutTwice` | src/recovery/main.c:254-259 | Cutting to the field's size after each append equals cutting once |
| `BcbText.ReadBack` | src/recovery/main.c:216-259 | Writing an argument vector and reading it returns that vector if and only if it is stable: at most 99 non-empty newline-free arguments that fit the field |
| `BcbText.StableReads` | src/recovery/main.c:216-259 | Every stable vector is read back as it was written |
| `BcbText.ReadWriteRead` | src/recovery/main.c:216-259 | Whatever a field holds and whoever wrote it, the vector found in it is stable and is found again after writing it back |
| `BcbText.FieldFixpoint` | src/recovery/main.c:216-259 | Reading a written field and writing it back leaves it as it is if and only if it has no blank line and at most 100 lines |
| `BcbText.JoinLines` | src/recovery/main.c:216-259 | Joining the lines of a text without blank lines gives the text back, with a last newline if it was missing |
| `BcbText.TooLong` | src/recovery/main.c:254-259 | An argument one byte too long is a vector that does not survive |
| `BcbArgs.NextLine` | src/recovery/main.c:218-224 | The scan returns the next non-empty line and leaves the rest |
| `BcbArgs.StrLCpy` | src/recovery/main.c:254 | The field's text is the source cut to the field, and terminated |
| `BcbArgs.ReadField` | src/recovery/main.c:216-230 | The arguments are the lines after the first, if that is `recovery`, and at most MAX_ARGS in all |
| `BcbArgs.StrLCat` | src/recovery/main.c:254-259 | The text grows by the source, cut to the field, and stays terminated |
| `BcbArgs.WriteField` | src/recovery/main.c:253-259 | The field then holds the image of the argument vector |
| `BcbArgs.ReadLine` | src/recovery/main.c:242 | fgets takes a line with its newline, or 4095 bytes of a longer one |
| `BcbArgs.FirstToken` | src/recovery/main.c:243 | strtok with both line ends delivers the text of the line |
| `BcbArgs.ReadFile` | src/recovery/main.c:233-249 | The arguments are the texts of the lines of the command file, at most 99; a line without text has no result |
| `BcbArgs.GetArgs` | src/recovery/main.c:202-261 | Arguments given win over the block, the block over the command file; the field then holds the image of the result |
| `BcbDevice.Misc.Get` | src/recovery/bootloader.c:31-48 | The message returned is the one stored, on raw flash and on a block device, or a read error |
| `BcbDevice.Misc.Set` | src/recovery/bootloader.c:50-67 | A write that is done stores this message and keeps every other byte of the partition, in its page too; a refused one changes nothing; one that fails under way may leave anything in the pages it goes over and nothing beyond them |
| `BcbDevice.Compose` | src/recovery/main.c:202-259 | The new message is built on the one read (or zeros), with the boot command and the field set and the status kept |
| `BcbDevice.GetArgs` | src/recovery/main.c:202-261 | The vector chosen is the one stored for the next start if the write is done; a refused write leaves the partition as it was, and no write reaches beyond the pages of the message |
| `BcbDevice.Clear` | src/recovery/main.c:321-324 | If the write is done, boot command, status and field are all zero, so that the field reads as no arguments, and no other byte changes; a refused write leaves the partition as it was |
| `BcbProtocol.InvAlways` | src/recovery/main.c:445-554 | Whatever steps, torn writes and crashes a run has, a block known to be written holds the image of its vector |
| `BcbProtocol.ChoosesArmed` | src/recovery/main.c:202-261 | A start without arguments takes the vector from the block, whatever the command file says |
| `BcbProtocol.BoundNext` | src/recovery/main.c:304-333 | Every step that neither clears the block nor tears a write keeps later starts bound to the vector, the wiping of the command file, refused writes and crashes included |
| `BcbProtocol.Restartable` | src/recovery/main.c:202-333 | In every run with crashes anywhere, from the write of the block until it is cleared or a write is torn, every start without arguments works on the identical vector, if it is stable |
| `BcbProtocol.RestartableRead` | src/recovery/main.c:202-333 | For a vector that a run has read from the block the same holds with nothing known of the vector |
| `BcbProtocol.SurvivesExactly` | src/recovery/main.c:202-261 | A vector survives a crash exactly when it is stable |
| `BcbProtocol.ClearedForgets` | src/recovery/main.c:304-333 | In every run, from the clearing of the block to the next write of it, a start without arguments takes its vector from the command file, or has none if there is no such file |
| `BcbRuns.Start` | src/recovery/main.c:202-261 | A call of get_args on the partition is a boot, a choice and a write of the protocol: the states passed through agree with the partition before and after, and the run goes on with the vector returned |
| `BcbRuns.Finish` | src/recovery/main.c:304-333 | The end of finish_recovery on the partition is a clearing and an unlink of the protocol, and the states agree with partition and command file |
| `BcbRuns.StartAgain` | src/recovery/main.c:202-261 | Any number of starts that are cut off, each with a new command file and none with a torn write: every call of get_args returns the vector in the block, and the whole is a run of the protocol |

## Left out

- gzip: option parsing, file names, several files, restoring times and modes, and pack_gzip's memory handling are not modelled; safe_read is any reader that returns a prefix of the rest, possibly shorter than asked, or fails.
- gzip: the window has unchanging slack bytes behind 2*WSIZE, so that reads of up to 258 bytes past the lookahead are defined; matches are clipped to the lookahead as in the source.
- gzip: opt_len, static_len and compressed_len are unbounded integers.
- gzip: match_start and block_start are integers that may become negative, instead of unsigned values that wrap.
- gzip: the branch that turns a whole file into a stored file (seekable() is always 0) and the branch for 16-bit machines in fill_window are not modelled.
- gzip: trees that are only read, in send_tree, send_all_trees and compress_block, are passed as sequence values taken from the arrays.
- gzip: the extra-flags byte is the constant of the only level, and the last two header bytes are written before the first read of the input instead of after it; the decoder accepts only members without optional header fields, which is all that zip writes.
- lzop: the compressors, LZO1Y, the decompressor with its own checks, the block framing, headers and lzo_crc32 are not modelled.
- LzoLoop.Optimize: requires a stream that decodes up to an end marker and an output buffer with room for its output, because on other streams the source reads and writes out of bounds.
- dpkg: the conflict phase of check_deps, cutting a control file into fields and finding its status line, set_status, status file writing, archives and scripts are not modelled.
- dpkg: characters are unsigned bytes, as on ARM; atoi for the epoch is taken modulo 2^32.
- dpkg: search_package_hashtable's call for edges that are no dependencies is not modelled, since its result is not used.
- DpkgHash.NameTable.Search: requires a free slot unless the string is stored, because on a full table the source loops for ever.
- DpkgDeps.CheckDependencies: requires a free slot in the package and in the status table and one for each status word not stored yet, for the same reason.
- DpkgFile.CheckStatusFile: requires that the different strings, packages and package names of the file fit the tables, that a stanza with a version names its package, and that it has a status line; otherwise the source loops for ever, reads name 0 or leaves the status uninitialised.
- DpkgSplit.AddSplitDependencies: requires every part to have a name, because strtok_r returns NULL otherwise; the relation of an edge whose parenthesis holds no operator is uninitialised in the source and a parameter here.
- BuildTree.Build: requires frequencies that add up to less than 2^15, which the size of the token buffer guarantees.
- DynTrees.LastLength: requires a code length from 1 to 15 to be in use, which the code of END_BLOCK guarantees.
- expr: arithmetic is on unbounded integers; regular-expression matching is a parameter; values are immutable instead of converted in place; printing is not modelled.
- recovery: the user interface, volumes, the commands and logging are not modelled; what a command does is one step that may erase the command file.
- recovery: what a torn write leaves in the field is any text; that a block device may leave only a prefix of the message is not used.
- recovery: a command file line without text makes the source call strdup(NULL); the model then has no result.
- BcbProtocol.Restartable: speaks of runs that are started without arguments and can read the control block, and while no write of it is torn.
