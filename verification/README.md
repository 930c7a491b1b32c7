# A verified model of the JPEG entropy coders, regions and buffer managers

This project models, in Dafny, three parts of the repository and proves what they are for.

* **The JPEG coder of `common/jpeg`.** The compressor and the decompressor were written separately and have to be
  exact inverses. The model covers canonical Huffman tables and their generation from symbol counts; the bit buffers
  of both sides, byte stuffing and restart markers; the sequential coder; the progressive coder with its four kinds of
  scan (first and refining, DC and AC), runs of ended bands and deferred correction bits; scan scripts; the sequence
  of passes; the headers of a file. The decoder may run out of input anywhere, give up the block or marker it is at,
  and start it again when more data have come.
* **The region algebra of `common/Xregion`.** Regions are lists of boxes in a canonical form. One sweep over two such
  lists, with a routine for the bands that overlap and a merge of bands that are alike, computes union, intersection
  and difference; equality, containment, shrinking and growing rest on it. The specification is sets of points.
* **Two buffer managers of `common/jpeg`**: the main buffer controller of the decompressor for upsamplers that look at
  neighbouring rows, which shows the same workspace through two lists of row addresses, and virtual arrays, of which
  only a window is in memory. Both have to behave as if everything were in memory at once.

Code that changes state is modelled by classes, arrays and methods with loops, and each method is proved against a
specification function. What the system promises is then proved about those functions, or is the method's own
contract. A bit string is a `seq<bool>` (`BitSeq`), a block a sequence of 64 coefficients: in
zigzag order in specifications, in natural order in the arrays that methods change. `Avail()` of a bit reader is all
that it still has to give: the bits of its register, and those in the data up to the next marker.

Round trips alone would leave open which of many possible formats the two sides agree on. The modules whose names end
in `Laws`, and ZigzagPath, ManyTables, SentOnce and SimpleProgression, therefore say what the format is, with the numbers of ITU-T
T.81 and without the definitions that the round trips are about: which symbols stand for which coefficients and runs,
how long a run may get, the order of the coefficients, the canonical code, every byte of a header and of a restart
segment, and which scripts are legal.

How the modules build on one another:

| part | modules |
|---|---|
| bits and Huffman codes | Bits, Reading, Coef, Zigzag, ZigzagPath, Huffman, CodeLaws, HuffTables, BitOutput, BitInput, HuffDecoding |
| table generation | CodeLengths, HuffmanForest, HuffmanOptimal, HuffmanPseudo, HuffmanMerge, BestTables, OptimalTable |
| progressive AC scans | AcScan, AcLaws, AcRoundTrip, AcFidelity, AcEncoding, AcEncoder, AcPass, OptimizedScan, AcResume, AcDecoder, AcFirstDecoder, Suspension, PhuffDecoder, ProgRoundTrip |
| progressive DC scans | DcScan, DcEncoder, DcPass, DcRefinePass, DcDecoder, DcScanDecoder, DcRoundTrip |
| sequential scans | SeqScan, SeqEncoder, SeqPass, SeqGather, SeqLaws, GatherPass, SeqOptimized, SeqMcu, SeqDecoder, McuDecoder, SeqRoundTrip |
| restarts and arriving data | Segments, SegmentLaws, Arrival, RestartMarkers |
| scripts and passes | Script, ScriptLaws, SimpleProgression, ScriptFidelity, PassMachine |
| headers | MarkerSyntax, MarkerParsing, MarkerReplay, MarkerReading, HeaderReader, MarkerWriter, MarkerLaws, ManyTables, SentOnce, HeaderRoundTrip |
| regions | Spans, SpanOps, Bands, RegionModel, RegionKernels, Coalesce, RegionSweep, RegionOp, RegionOps, RegionQueries, RegionShrink |
| buffer managers | FunnyList, ContextRows, MainControl, OutputSize, VirtualArray |

## Model

| member | source | states |
|---|---|---|
| AcFidelity.AcScanRoundTrip | common/jpeg/jcphuff.c:463-738 | For a whole AC scan, first or refining: decoding the symbols, correction bits and runs of ended bands that the encoder sends for any sequence of blocks leaves every coefficient of the band truncated to the precision of the scan, every other coefficient as it was, and exactly the bits behind the scan unread. |
| ScriptFidelity.ScriptFidelity | common/jpeg/jcmaster.c:130-261 | For every progressive script that the compressor accepts: decoding all its scans one after the other from blank coefficients, each from restart to restart, gives every coefficient of every block that belongs to the image at the precision of the last scan that sent it (AC truncated toward zero, DC rounded down, zero if never sent). Each scan has restarts of its own and visits the blocks in an order of its own; interleaved DC scans may visit further blocks to fill up their MCUs; whatever follows the bits of a restart segment, such as padding, does not matter. |
| ScriptFidelity.ExactWhereComplete | common/jpeg/jcmaster.c:130-261 | Where the last scan had Al = 0 the decoded coefficient of a block of the image is the original one. |
| Script.ValidateScript | common/jpeg/jcmaster.c:130-261 | The loop over scans, components and coefficients with its table of last bit positions accepts exactly the scripts in which every scan continues what the scans before it left, every component is sent, and the parameters are in range; it tells progressive scripts from sequential ones. |
| ScriptLaws.ScriptLaw | common/jpeg/jcmaster.c:130-261 | What acceptance means, said of the scans: a script is not empty; if its first scan sends whole blocks, all do, each of one to four components in increasing order, and every component is in exactly one scan; otherwise it is legal as in the next row and every component has a DC scan. |
| ScriptLaws.ProgressiveLaw | common/jpeg/jcmaster.c:171-240 | A progressive script is accepted if and only if every scan sends the DC coefficients of one to four components in increasing order or a band of AC coefficients 1 to 63 of one component, with bit positions from 0 to 10; every AC scan comes after a DC scan of its component; the scans of each coefficient start at any position and then add exactly one bit each; and every component has a DC scan. |
| ScriptLaws.StepwiseLaw | common/jpeg/jcmaster.c:196-201 | The DC coefficients, then any band of a component at bit position Al, then its bits one by one down to 0: accepted for every Al up to 10, and for no other. |
| SimpleProgression.SimpleProgression | common/jpeg/jcparam.c:537-608 | The recommended progressive script, for YCbCr and for any other number of components, is accepted, has exactly the number of scans for which space is set aside, and brings every coefficient of every component to its last bit. |
| Script.ScriptNeverWarns | common/jpeg/jdphuff.c:92-146 | Through the whole of an accepted script, the check the progressive decoder makes before a scan against its own record of coefficient precision neither rejects a scan nor warns. |
| AcLaws.PrecisionLaw | common/jpeg/jcphuff.c:494-507 | The value of a coefficient at a precision is the multiple of 2^Al next to it: toward zero for AC, downward for DC. |
| AcLaws.FirstPassLaw | common/jpeg/jcphuff.c:487-538 | First scans: a coefficient with an n-bit value after 16q + r zeroes is sent as q symbols 0xF0, the symbol 16r + n, and the n bits of the value, or of the complement of its magnitude if it is negative. |
| AcLaws.CategoryLaw | common/jpeg/jcphuff.c:522-536 | The number of bits of a value, and the number those bits make: the value itself, or 2^n - 1 more if it is negative. |
| AcLaws.RefineLaw | common/jpeg/jcphuff.c:666-711 | Refining scans: a coefficient that becomes nonzero after r < 16 zeroes is sent as the symbol 16r + 1, a bit for its sign, and the correction bits of the nonzero coefficients passed over. |
| AcLaws.RefineSixteenLaw | common/jpeg/jcphuff.c:672-683 | After 16 zeroes the next coefficient that is not zero, if a new one is still to come, makes the symbol 0xF0 go out with the correction bits up to there. |
| AcLaws.CorrectionLaw | common/jpeg/jcphuff.c:690-694 | The correction bit of a coefficient is the last bit of its magnitude at the precision of the scan. |
| AcLaws.FlushLaw | common/jpeg/jcphuff.c:717-722 | A block that sends no symbol adds itself to the pending run, and the run is sent if and only if one more block would make it 0x8000, or 63 more correction bits would make more than 1000. |
| AcLaws.RunLaw | common/jpeg/jcphuff.c:315-339 | A run of 2^b up to 2^(b + 1) - 1 blocks is sent as the symbol 16b and the b bits by which it exceeds 2^b, then the correction bits. |
| AcLaws.OneRun | common/jpeg/jcphuff.c:540-545 | Blocks that are zero at the precision of the scan, between 2^b and 2^(b + 1) - 1 and no more than 32767 of them, are sent as that one run and nothing else. |
| AcLaws.LongRun | common/jpeg/jcphuff.c:540-545 | 32767 such blocks are sent as one run of 14 bits, and what follows starts with nothing pending. |
| AcLaws.RangeLaw | common/jpeg/jcphuff.c:527-529 | A first scan takes exactly the blocks whose coefficients are below 1024 * 2^Al in magnitude; a refining scan takes all. |
| AcEncoder.PhuffEncoder.EncodeMcuFirst | common/jpeg/jcphuff.c:463-561 | One block of a first AC scan, in either pass: what has been sent and what is still pending afterwards are those of the specification of the scan; it fails just when a coefficient is out of range or, when writing, a symbol has no code. |
| AcEncoder.PhuffEncoder.EncodeMcuRefine | common/jpeg/jcphuff.c:617-738 | The same for a refining AC scan, with its buffer of deferred correction bits, which is proved never to overflow: there is room for a block's bits at every block start because what is pending is sent before it could get too much. |
| AcEncoder.PhuffEncoder.EmitEobrun | common/jpeg/jcphuff.c:315-339 | What is pending is sent as one symbol with its run length and correction bits; the run is never more than 0x7FFF, so the error exit for runs of more than 14 bits is not reached. |
| AcPass.WriteScan | common/jpeg/jcphuff.c:347-368 | An output pass over an AC scan succeeds if and only if all coefficients are in range and all symbols have codes; then it has appended the bits of each restart segment, padded with ones and stuffed, with RST0 to RST7 in turn between segments. |
| AcPass.CountScan | common/jpeg/jcphuff.c:280-289 | The statistics pass over the same blocks counts exactly the symbols of that scan, restarts and runs of ended bands included, and fails just when a coefficient is out of range. |
| AcPass.CountedIsCoded | common/jpeg/jcphuff.c:280-289 | With a table that has a code for every symbol the statistics pass counted, no symbol of the output pass lacks one. |
| OptimizedScan.WriteOptimized | common/jpeg/jcphuff.c:767-806 | Counting the symbols of an AC scan, generating a table from the counts and writing the scan with it succeeds only if all coefficients are in range, and fails only if one is not or if the scan has at least 9227464 symbols, so many that code lengths may get too long; the table is the best for how often each symbol occurs, as in OptimalTable.GenOptimalTable. |
| AcFirstDecoder.DecodeMcuFirst | common/jpeg/jdphuff.c:356-432 | One block of a first AC scan, in place: the block, the run and the unread bits are those of the specification of decoding, past the end of the data with zero bits made up; when it has to wait, a second attempt on what it left gives the same result as if the first had not been made. |
| AcDecoder.BandDecoder.DecodeMcuRefine | common/jpeg/jdphuff.c:490-633 | The same for a refining scan. When it has to wait, new nonzero coefficients have been undone but corrections have not; decoding the block it leaves and the block it found gives the same result on whatever data come. |
| Suspension.DecodeFromChunks | common/jpeg/jdphuff.c:525-633 | However the input is cut into pieces, a block decoded with waiting and starting over gives the block, run and unread bits of one uninterrupted run over all the input; it gives up only when all pieces are used and there is no next byte or marker. |
| PhuffDecoder.ProgAcDecoder.ProcessRestart | common/jpeg/jdphuff.c:228-260 | Looking for the restart marker that is due, possibly in several attempts, does not change which block comes next and where its bits begin, whatever data are still to come; it finds a wrong marker only where the data have one. |
| PhuffDecoder.ProgAcDecoder.DecodeMcu | common/jpeg/jdphuff.c:356-633 | One block of an AC scan together with the restart before it: done, it has the coefficients that the data determine and stands before the next block; suspended, it stands before a block that still decodes to the same. |
| ProgRoundTrip.DecodeAcScan | common/jpeg/jdphuff.c:228-633 | The bytes of a whole AC scan as AcPass.WriteScan writes them, with any restart interval and cut into pieces anywhere, bring all blocks, in place, to the precision of the scan; no data are made up, no restart marker is missed, and the decoder stops at the marker behind the scan. |
| DcEncoder.ProgDcEncoder.EncodeMcuFirst | common/jpeg/jcphuff.c:376-455 | The blocks of an MCU in a first DC scan: in an output pass the differences of the shifted values are sent, with predictions carried along; in a statistics pass just their symbols are counted; it fails just when a difference is out of range or has no code. |
| DcEncoder.ProgDcEncoder.EncodeMcuRefine | common/jpeg/jcphuff.c:570-610 | One bit per block of an MCU, the one the scan adds, and nothing in a statistics pass. |
| DcPass.WriteDcScan | common/jpeg/jcphuff.c:376-455 | An output pass over a first DC scan with restarts succeeds if and only if every difference can be sent; then the segments have been written with their restart markers. |
| DcPass.CountDcScan | common/jpeg/jcphuff.c:376-455 | The statistics pass over the same MCUs counts, table by table, exactly the symbols that the output pass sends, and fails just when a difference is out of range. |
| DcPass.CountedScanWritable | common/jpeg/jcphuff.c:767-806 | With tables that have a code for every symbol counted, the whole first DC scan can be written. |
| DcRefinePass.WriteDcRefineScan | common/jpeg/jcphuff.c:570-610 | A refining pass over all MCUs, with restarts, writes one bit per block, segment by segment with the restart markers between; nothing can go wrong. |
| DcScan.DcFirstRoundTrip | common/jpeg/jdphuff.c:285-348 | Decoding a first DC scan gives every DC coefficient rounded down to the precision of the scan, whichever components the blocks belong to. |
| SeqLaws.DcFirstLaw | common/jpeg/jcphuff.c:376-455 | First DC scans: the bits of each block are those of the difference between its value rounded down to the precision and that of the last block of the same component. |
| DcScan.DcRefineRoundTrip | common/jpeg/jdphuff.c:441-483 | Decoding a refining DC scan on values at precision Al + 1 gives them at precision Al. |
| DcDecoder.ProgDcDecoder.DecodeMcuFirst | common/jpeg/jdphuff.c:285-348 | The blocks of an MCU, in place: DC values, predictions and unread bits are those of the specification, nothing but DC coefficients changes; when it has to wait, predictions and position are as they were. |
| DcDecoder.McuFirstRoundTrip | common/jpeg/jdphuff.c:285-348 | An MCU that was sent is decoded to the values that were sent, and the predictions of encoder and decoder stay equal. |
| DcDecoder.ProgDcDecoder.DecodeMcuRefine | common/jpeg/jdphuff.c:441-483 | The same for refinement; setting a bit again on a second attempt changes nothing. |
| DcScanDecoder.ProgDcScanDecoder.ProcessRestart | common/jpeg/jdphuff.c:228-260 | As for AC scans: looking for the restart marker that is due, possibly in several attempts, does not change which MCU comes next, with predictions of zero. |
| DcScanDecoder.ProgDcScanDecoder.DecodeMcu | common/jpeg/jdphuff.c:285-348 | One MCU of a DC scan, first or refining, with the restart before it: done, its DC values and the predictions are those that the data determine; suspended, an MCU is left that still decodes to the same. |
| DcRoundTrip.DecodeDcScan | common/jpeg/jdphuff.c:228-483 | The bytes of a whole DC scan as DcPass.WriteDcScan or DcRefinePass.WriteDcRefineScan write them, with any restart interval and cut into pieces anywhere, bring the DC values of all blocks, in place, to what the scan should make of them and change nothing else; no data are made up, no restart marker is missed, and the decoder stops at the marker behind the scan. |
| DcRoundTrip.NewIsFloor | common/jpeg/jdphuff.c:441-483 | What a scan should make of DC values are the originals rounded down to its precision, if a refining scan starts from them at the precision before. |
| SeqPass.WriteSequential | common/jpeg/jchuff.c:302-525 | Writing a sequential scan succeeds if and only if the tables are accepted, all values are in range and all symbols have codes; then exactly the data of the scan have been written: per restart interval the blocks' codes with fresh DC predictions, padded, stuffed and followed by the next restart marker. |
| SeqRoundTrip.DecodeScan | common/jpeg/jdhuff.c:468-627 | Those data, for any tables, MCU layout and restart interval and cut into pieces anywhere, are decoded to the same coefficients; no data are made up, no restart marker is missed, and the decoder stops at the marker behind the scan. |
| McuDecoder.HuffDecoder.DecodeMcu | common/jpeg/jdhuff.c:517-627 | One MCU with the restart before it: done, its blocks are what the data determine and the state is that of the next MCU; suspended, the MCU at which it stands still decodes to the same, so an attempt may be repeated. |
| SeqMcu.McuRoundTrip | common/jpeg/jdhuff.c:517-627 | At the level of bits, the rest of an MCU from any block on decodes to the blocks that were sent, with the predictions that the encoder had, and leaves the bits of the next MCU. |
| SeqScan.BlockRoundTrip | common/jpeg/jchuff.c:353-443 | Decoding what was sent for a block, into a zeroed block, gives back all 64 coefficients and the bits behind it. |
| SeqLaws.DiffLaw | common/jpeg/jchuff.c:359-391 | A DC difference of n bits is sent as the code of the symbol n and the n bits, those of the complement of the magnitude if it is negative; a difference of 0 as the symbol 0 alone. |
| SeqLaws.AcLaw | common/jpeg/jchuff.c:393-434 | A coefficient of n bits after 16q + r zeroes is sent as q symbols 0xF0, the symbol 16r + n, and its bits. |
| SeqLaws.EndLaw | common/jpeg/jchuff.c:437-440 | After the last nonzero coefficient an end-of-block symbol 0 is sent, unless that coefficient is the 63rd. |
| SeqLaws.PredictionLaw | common/jpeg/jchuff.c:496-507 | The prediction of a DC value is that of the last block of the same component in the restart interval, and 0 for the first. |
| SeqLaws.BlockRangeLaw | common/jpeg/jchuff.c:380-427 | Exactly the blocks with AC coefficients below 1024 and a DC difference below 2048 in magnitude are taken. |
| SeqGather.HtestOneBlock | common/jpeg/jchuff.c:572-636 | Counts exactly the symbols that encoding the block would send, each in the row of its table, and fails just when a value is out of range. |
| GatherPass.GatherSequential | common/jpeg/jchuff.c:645-673 | The statistics pass over a sequential scan counts exactly the symbols of the scan, table by table, with DC predictions reset at every restart. |
| SeqGather.CountedIsSendable | common/jpeg/jchuff.c:645-673 | With codes for all symbols that were counted, a segment whose values are in range can be sent. |
| SeqOptimized.WriteOptimizedSequential | common/jpeg/jchuff.c:846-880 | Counting, generating every table used once, and writing the scan succeeds only if all values are in range, and fails only if one is not or if some table is used for at least 9227464 symbols; a missing code cannot occur, and every table is the best for the symbols it is used for. |
| OptimalTable.GenOptimalTable | common/jpeg/jchuff.c:705-838 | The table generated from symbol counts is a valid canonical table in which exactly the symbols with a nonzero count have a code, each once, none of more than 16 bits and none all ones. Its symbols are listed by the optimal code sizes of Huffman's procedure, the smaller symbol first where sizes are equal, and its counts are those of the code sizes brought down to 16, without the pseudo-symbol. Where no code size exceeds 16, and so for every total count below 4181, each symbol's code is as long as its code size, and no valid table sends the symbols in fewer bits (each table with one more code of its greatest length, the one reserved). It fails if and only if a code size exceeds 32, never for a total below 9227465. |
| OptimalTable.ListSymbols | common/jpeg/jchuff.c:822-833 | The symbols with a code, each once, sorted by code size and then by symbol, each among the places of its size. |
| OptimalTable.ShorterFirst | common/jpeg/jchuff.c:822-833 | A symbol with a smaller code size never gets a longer code than one with a larger, also after code lengths have been brought down to 16. |
| BestTables.TableFeasible | common/jpeg/jchuff.c:667-686 | The code lengths of every valid table satisfy Kraft's inequality together with one more code of the greatest length. |
| BestTables.MinimalIsBest | common/jpeg/jchuff.c:730-775 | A table whose code lengths are minimal among all lengths that satisfy Kraft's inequality needs no more bits than any other valid table with codes for the symbols that occur. |
| HuffmanPseudo.JoinBottom | common/jpeg/jchuff.c:730-775 | Merging keeps the pseudo-symbol, which has count 1 and is preferred among equal counts, at the bottom of its tree, and no other tree higher: no symbol ever gets a longer code. |
| OptimalTable.DepthBound | common/jpeg/jchuff.c:730-788 | Any merging of counts that total less than the 35th Fibonacci number gives no code of more than 32 bits. |
| HuffmanMerge.MergeAll | common/jpeg/jchuff.c:730-775 | Merging the two least counts until one is left, with the chains of merged symbols, builds one full binary tree whose leaves are the symbols that occur and in which every symbol's code size is its depth; and the code sizes are optimal: no lengths that satisfy Kraft's inequality give a smaller total over all symbols counted. Symbol 256, if its count is 1, has the greatest code size. |
| HuffmanOptimal.MergedBetter | common/jpeg/jchuff.c:753-775 | For any lengths that leave room for all codes there are lengths for the counts after the two least have been merged that also do, and save at least one bit for each occurrence of the two. |
| CodeLengths.LimitLengths | common/jpeg/jchuff.c:787-821 | Moving pairs of codes up until none has more than 16 bits always finds the shorter code it needs, keeps the number of codes, and keeps the code space exactly filled; what comes out is what the steps of the next row lead to, and counts without lengths over 16 are left alone. |
| CodeLengths.StepLaw | common/jpeg/jchuff.c:801-812 | One step: two codes of the greatest length i become one of i - 1, and the longest code of at most i - 2 bits becomes two that are a bit longer. |
| CodeLaws.CanonicalLaw | common/jpeg/jchuff.c:208-244 | The first code word is all zeroes, and each further one is the one before it plus one, with zeroes appended if it is longer. |
| CodeLaws.ValidLaw | common/jpeg/jchuff.c:208-244 | Counts make a code without a word of all ones if and only if there are at most 256 codes and the sum of 2^(16 - length) over them is less than 2^16. |
| CodeLaws.SentLaw | common/jpeg/jchuff.c:302-336 | What is sent for a symbol are the bits of its code word, the most significant first. |
| HuffTables.MakeCDerivedTbl | common/jpeg/jchuff.c:179-264 | The encoder accepts a table if and only if its counts form a code tree, its symbols are distinct and in range; then each symbol has the canonical code word and length of its place. |
| HuffTables.MakeDDerivedTbl | common/jpeg/jdhuff.c:149-266 | The decoder accepts a table if and only if its counts form a code tree (and DC symbols are at most 15); then its bounds, offsets and lookahead entries are those of the canonical code. |
| HuffTables.TwofoldAccepted | common/jpeg/jdhuff.c:149-266 | Two code words for one symbol: the counts are valid and the symbol is in range, which is all the decoder asks for, but the symbols are not distinct, which the encoder asks for. |
| HuffDecoding.HuffDecode | common/jpeg/jdhuff.h:176-196 | All three ways to decode a symbol (lookahead, long codes from 9 bits on, bit by bit near the end of the data) give the symbol that bit-serial decoding gives, and leave the same bits; past the end of the data zero bits are made up, and it waits only where data may still come. |
| ZigzagPath.PathLaw | common/jpeg/jutils.c:53-64 | The coefficient order is the path of T.81, figure A.6: it starts at row 0, column 0, goes up the even diagonals and down the odd ones, along the edge from one to the next, and ends at row 7, column 7. |
| ZigzagPath.OnlyPath | common/jpeg/jutils.c:53-64 | Any order of 64 places that starts there and takes those steps is the one in the table. |
| Huffman.HuffTable.DecodeEncode | common/jpeg/jdhuff.c:397-433 | Decoding a symbol's code word bit by bit returns that symbol and leaves every bit that follows. |
| Huffman.HuffTable.PrefixFree | common/jpeg/jchuff.c:221-263 | In the canonical code of any counts the generator accepts, an entry whose code is a prefix of another entry's code is that same entry. |
| Huffman.HuffTable.StopAtCode | common/jpeg/jdhuff.c:397-433 | The decoder's search for the code length, which compares with the largest code of each length, stops exactly at the length of the code word that the bits begin with. |
| BitOutput.BitWriter.EmitBits | common/jpeg/jchuff.c:302-336 | The output and the 24 meaningful bits of the buffer always amount to the stuffed bytes of all bits emitted so far; emitting appends the low bits of the code, and fails just on length zero. |
| BitOutput.BitWriter.FlushBits | common/jpeg/jchuff.c:340-347 | Completes the segment: what is written is its bits, padded with ones to a byte, with a zero byte behind every 0xFF. |
| BitInput.BitReader.FillBitBuffer | common/jpeg/jdhuff.c:292-389 | Filling the register never loses or invents a bit while the data suffice, removes stuffing, stops at a marker, makes up zeros only when a marker has been reached and more bits are needed, and changes nothing when it has to wait. |
| Segments.ReadSegment | common/jpeg/jchuff.c:451-468 | From where a segment begins, what can be read up to the next marker is exactly its bits and the padding, and that marker is the restart marker with the next number, or the one behind the scan. |
| SegmentLaws.PaddedLaw | common/jpeg/jchuff.c:302-347 | A restart segment has just enough bytes for its bits, the first bit of each byte the most significant, and the last byte filled up with ones. |
| SegmentLaws.StuffLaw | common/jpeg/jchuff.c:321-328 | Each byte 0xFF is followed by a zero byte, and no other byte is. |
| SegmentLaws.SegmentLaw | common/jpeg/jchuff.c:321-328 | So no marker can appear inside a segment. |
| SegmentLaws.ScanLaw | common/jpeg/jchuff.c:451-468 | Each segment after the first is preceded by a marker 0xFF, 0xD0 + i with i from 0 to 7 in turn. |
| SegmentLaws.GroupsLaw | common/jpeg/jchuff.c:514-522 | Segment i covers the MCUs from i times the restart interval on, as many as the interval says or as there are left. |
| RestartMarkers.MarkerReader.ReadRestartMarker | common/jpeg/jdmarker.c:1113-1139 | Finds the next marker, however much is in between, and takes it just if it is the expected one; the number wraps after 7; bytes skipped are counted once even over several attempts. |
| PassMachine.Compress | common/jpeg/jcapimin.c:147-181 | Running the passes until the last gives the one sequence of events that the next two rows describe: it begins with the file header and ends with the trailer, has every scan in order, and as many passes are made as were announced. |
| PassMachine.FileShape | common/jpeg/jcmaster.c:401-535 | File header and trailer stand only at the ends; the frame header comes right before the header of scan 0 and before all scan headers; the data of a scan follow directly on its header and nowhere else; right before the header come the statistics of the scan, just if tables are optimized and it is no DC refinement (or is the pass that reads the image). |
| PassMachine.FileInOrder | common/jpeg/jcmaster.c:401-535 | In that sequence the scan headers are 0, 1, 2, ... in script order, so are the output passes, and there is one frame header. |
| MarkerParsing.BodyBack | common/jpeg/jdmarker.c:419-569 | Parsing what is written for any of the segments DQT, DHT, DRI, SOF and SOS has the effect of that segment, and leaves the bytes behind it. |
| HeaderReader.HeaderDecoder.ReadMarkers | common/jpeg/jdmarker.c:952-1097 | Reading markers has the outcome that the specification of the syntax gives for the whole data. A suspension may come anywhere, even inside a segment of which some tables are already stored, and again on the next attempt; what has been stored by then makes no difference to what more data lead to. |
| HeaderReader.HeaderDecoder.ReadHeader | common/jpeg/jdmarker.c:952-1097 | From a source that delivers pieces of any size, the outcome is that of having all of them at once; it stays suspended only when all pieces are used. |
| MarkerWriter.HeaderWriter.WriteFrameHeader | common/jpeg/jcmarker.c:494-541 | Writes each quantization table that the frame uses and that has not been sent, then the frame header of the kind the parameters call for; it fails just when a table is missing or a dimension exceeds 65535. |
| MarkerWriter.HeaderWriter.WriteScanHeader | common/jpeg/jcmarker.c:551-594 | Writes the Huffman tables that the scan needs and that have not been sent, the restart interval if it has changed, and the scan header; it fails just when a table is missing. |
| MarkerWriter.HeaderWriter.StoreHuff | common/jpeg/jchuff.c:834-838 | A table that has been generated counts as not sent, so that the next scan header that needs it sends it. |
| MarkerWriter.HeaderWriter.StoreQuant | common/jpeg/jcparam.c:52-60 | The same for a quantization table. |
| MarkerWriter.HeaderWriter.WriteFileHeader | common/jpeg/jcmarker.c:469-482 | Writes SOI and forgets the restart interval last sent, so that the first scan sends its own. |
| MarkerWriter.HeaderWriter.WriteFileTrailer | common/jpeg/jcmarker.c:602-605 | Writes EOI. |
| MarkerLaws.NarrowDqtLaw | common/jpeg/jcmarker.c:144-180 | A quantization table of values below 256 is sent as 0xFF, 0xDB, the length 67, its number, and 64 bytes in zigzag order. |
| MarkerLaws.WideDqtLaw | common/jpeg/jcmarker.c:144-180 | If one value is larger, with the length 131, 16 added to the number, and two bytes for each value, the high one first. |
| MarkerLaws.DhtLaw | common/jpeg/jcmarker.c:184-218 | A Huffman table is sent as 0xFF, 0xC4, the length, its number with 16 added for AC, the 16 counts and the symbols. |
| MarkerLaws.DriLaw | common/jpeg/jcmarker.c:265-273 | A restart interval is sent as 0xFF, 0xDD, the length 4 and two bytes. |
| MarkerLaws.SofLaw | common/jpeg/jcmarker.c:277-304 | The frame header byte by byte; its marker is 0xC2 for progressive files, 0xC0 if samples have 8 bits, quantizers one byte and all Huffman tables are number 0 or 1, and otherwise 0xC1. |
| MarkerLaws.SosLaw | common/jpeg/jcmarker.c:308-345 | The scan header byte by byte; a table that the scan does not use is sent as number 0. |
| MarkerLaws.SkipLaw | common/jpeg/jdmarker.c:845-863 | APPn and COM segments are passed over, whatever they contain. |
| MarkerLaws.BareLaw | common/jpeg/jdmarker.c:1068-1078 | Restart markers and TEM among the headers have no parameters. |
| MarkerLaws.FillLaw | common/jpeg/jdhuff.c:318-345 | Any number of bytes 0xFF may stand before the code of a marker; followed by a zero they are one byte of data. |
| ManyTables.ManyDqtLaw | common/jpeg/jdmarker.c:490-544 | A DQT segment that defines several tables, in bytes or words, is read as one segment for each. |
| ManyTables.ManyDhtLaw | common/jpeg/jdmarker.c:419-486 | A DHT segment that defines several tables: each slot holds the last table defined for it, and slots for which there is none are left alone. |
| SentOnce.ScanHeaderOnce | common/jpeg/jcmarker.c:551-594 | A scan header defines a Huffman table just if a component of the scan needs it and it has not been sent, then once, and the restart interval just if it is not the one last sent. |
| SentOnce.OnceUntilStored | common/jpeg/jcmarker.c:196-200 | Through any number of scans, until it is stored again, a Huffman table is defined once if a scan needs it and it has not been sent, and otherwise not at all. |
| SentOnce.SameInterval | common/jpeg/jcmarker.c:584-591 | Scans with the same restart interval define it once, or not at all if it was the one last sent. |
| SentOnce.FrameHeaderOnce | common/jpeg/jcmarker.c:494-511 | The frame header defines each quantization table that a component uses and that has not been sent exactly once, and no other. |
| HeaderRoundTrip.FileHeaderRead | common/jpeg/jcmarker.c:469-541 | The start of a file is read to the end of its first scan header, and the decoder then has the frame parameters, the quantization tables in natural order, and the Huffman tables and parameters of that scan. |
| HeaderRoundTrip.FileRestored | common/jpeg/jcmarker.c:551-594 | Through all scans of a file, whatever tables are replaced in between and although each is sent only once, every scan header is read back with the parameters of its scan and the tables that scan is coded with. |
| HeaderRoundTrip.SameDecoding | common/jpeg/jcmarker.c:184-218 | A Huffman table as it is read back decodes every bit string as the table that was written. |
| HeaderRoundTrip.CurrentRestored | common/jpeg/jdmarker.c:301-367 | The components of a scan are read back as those that were written if and only if no earlier component of the frame has the identifier of one of them. |
| HeaderRoundTrip.TwinsConfused | common/jpeg/jdmarker.c:301-367 | Two components with one identifier: a scan of the second is read as one of the first. |
| RegionOp.CombineRegions | common/Xregion/Region.c:824-1090 | The sweep over two nonempty regions leaves a sorted, banded list without touching boxes in a band or mergeable bands, whose points are those of the operation, also when the destination is one of the sources. |
| Coalesce.CoalesceBands | common/Xregion/Region.c:673-794 | Merges the band just added into the one before it just when they touch and have the same boxes, in place, and leaves the other bands as they were; the index it returns is that of the last band if and only if no band but the last has been merged. |
| Coalesce.IndexRight | common/Xregion/Region.c:673-794 | If a band that is not the last is merged, the index returned is too large by exactly the boxes of that band; otherwise it is right. |
| Coalesce.IndexTooLarge | common/Xregion/Region.c:673-794 | Two bands added at once, of which the first continues the band before them: the last band starts at index 1, and 2 is returned. |
| RegionOps.BoxLaw | common/Xregion/Region.c:824-1090 | The result of an operation, box by box: a point is in some box of it if and only if it is in some box of one operand or the other, of both, or of the first and not the second. |
| RegionOps.UnionRegions | common/Xregion/Region.c:1230-1294 | With its shortcuts for empty, equal and containing regions: the canonical region of the points in one or the other, with tight extents. |
| RegionOps.IntersectRegions | common/Xregion/Region.c:462-484 | The canonical region of the points in both. |
| RegionOps.SubtractRegions | common/Xregion/Region.c:1513-1538 | The canonical region of the points in the first but not in the second. |
| RegionOps.XorRegions | common/Xregion/Region.c:1541-1554 | The canonical region of the points in exactly one of them. |
| Bands.CanonicalUnique | common/Xregion/Region.c:49-73 | Two canonical regions have the same points if and only if they are the same list of boxes. |
| RegionQueries.EqualRegions | common/Xregion/Region.c:1572-1590 | Comparing counts, extents and boxes decides equality of the sets of points. |
| RegionQueries.PointInRegion | common/Xregion/Region.c:1593-1609 | Decides whether a point belongs to the region. |
| RegionQueries.RectInRegion | common/Xregion/Region.c:1612-1691 | For a nonempty rectangle the scan with its early exits answers In exactly when all its points are in the region, and Out exactly when none is; otherwise Part. |
| RegionShrink.ShrinkRegion | common/Xregion/Region.c:289-360 | Shrinking leaves exactly the points all of whose neighbours within dx on the scan line, and then within dy lines, were in the region; growing, those with some such neighbour; computed by doubling runs in a number of steps logarithmic in dx. |
| RegionShrink.OffsetRegion | common/Xregion/Region.c:263-287 | Moves every box in place: the region of the moved points. |
| MainControl.OutputImage | common/jpeg/jdmainct.c:384-447 | For any image height and any pattern of calls that take part of what is offered: each row group is handed over once, in order, for every component with the row above, its own rows and the row below of the image, the first and last row repeated at the edges; calls that get input and room for output make progress to the end. |
| MainControl.HandedOver | common/jpeg/jdmainct.c:384-447 | What is handed over for row group g of a component with n rows to a group: rows gn to gn + n - 1 of the image, those of the group above before them and the row below after them, the first and last row repeated outside. |
| ContextRows.BottomPointers | common/jpeg/jdmainct.c:266-299 | At the bottom of the image the list shows, below the last real row, that row two row groups long. |
| ContextRows.PaddingShows | common/jpeg/jdmainct.c:238-299 | For the row group that was postponed to the next iMCU row, a row shown around it is the image row (repeated past the bottom) if and only if the image has not ended at that row. |
| ContextRows.TallShowsPadding | common/jpeg/jdmainct.c:238-299 | An image of 17 rows in row groups of two, eight to an iMCU row: for the last row group of the first iMCU row a row of padding is shown where row 16 should be repeated. |
| OutputSize.SameRowGroups | common/jpeg/jdmaster.c:131-158 | Whatever the sampling factors, the height computed for each component makes the same number of row groups, the last one perhaps incomplete. |
| OutputSize.IMcuRows | common/jpeg/jdinput.c:108-110 | The number of iMCU rows computed from the image height is that of the row groups, rounded up to whole iMCU rows. |
| OutputSize.ScaledSize | common/jpeg/jdmaster.c:131-145 | The scaled DCT size of a component is the least one times a power of two, as large as is possible without passing the component with the most samples in either direction or reaching twice the DCT size. |
| VirtualArray.VirtArray.AccessRows | common/jpeg/jmemmgr.c:840-922 | An access is refused if and only if it is outside the array, too high, leaves a gap of undefined rows, or reads undefined rows without pre-zeroing; otherwise the rows asked for are in the buffer at the place returned and are those last written, newly defined rows are zero if pre-zeroing was asked for, and all other rows are as they were, in memory or in the backing store. The window moves only if it must: down to begin with the strip, or up to end with it. |
| VirtualArray.Run | common/jpeg/jmemmgr.c:840-922 | Under any sequence of reads and writes of strips, up to the first refused one, a windowed array answers as an array that is all in memory; rows not written before are zero if the array is pre-zeroed, and otherwise hold something that is the same for the whole run. |
| VirtualArray.ReadLaw | common/jpeg/jmemmgr.c:840-922 | What such an array answers: each row of a strip that is read is what was last written to it, or what was there at the start. |
| VirtualArray.VirtArray.WriteRows | common/jpeg/jmemmgr.c:722-752 | Writing the window in chunks stores exactly its defined rows, each at its place, and no others. |
| VirtualArray.RealizeArrays | common/jpeg/jmemmgr.c:582-686 | All buffers together fit into the memory available unless not even the minimum does, and then take no more than the minimum; each is at least one strip high, has a backing store just if it is not all in memory, and none has one if there is room for everything. The incomplete ones all hold the same number of strips, and one strip more for every array would not fit. |
| VirtualArray.AllocRows | common/jpeg/jmemmgr.c:395-482 | Every row gets its own place in a piece of memory, as many rows to a piece as fit into the largest request of 1000000000 bytes; it fails just when not even one row fits. |

## Findings

Where a property the code or its comments promise does not hold for all inputs, the model keeps the code as it is.

* **Padding below a postponed row group** (`common/jpeg/jdmainct.c:238-299`). The comment of `set_bottom_pointers`
  says that repeating the last real row two row groups long pads out the last partial row group. The last row group
  of the previous iMCU row is shown through the other end of the lists, though, and there the rows of the partial row
  group below it are not repeated but are whatever the decoder left behind the image. `ContextRows.PaddingShows` gives
  the exact condition: the row shown is the right one if and only if its row number is less than the height of the
  component. The rows of the row group itself, all rows above it and the one row just below it are always right; this
  is what `MainControl.OutputImage` promises, and all that the upsampling with one row of context uses.
  `ContextRows.TallShowsPadding` is an image for which the padding shows.
* **Components with one identifier** (`common/jpeg/jdmarker.c:301-367`). The compressor does not check that component
  identifiers differ, and the reader takes the first component of the frame that has the identifier it finds in a scan
  header. `HeaderRoundTrip.CurrentRestored` gives the exact condition under which a scan header is read back, and
  `HeaderRoundTrip.TwinsConfused` an input for which it is not.
* **Tables with a symbol twice.** The decoder accepts Huffman tables that the encoder refuses: only
  `HuffTables.MakeCDerivedTbl` asks for distinct symbols, and only DC symbols are bounded by
  `HuffTables.MakeDDerivedTbl`. Both follow the code, and both give the exact condition;
  `HuffTables.TwofoldAccepted` is a table on which they differ.
* **The index `miCoalesce` returns** (`common/Xregion/Region.c:673-794`). Its comment says that when several bands were
  added the index of the last one is already in the right place. It is found before the gap that a merge leaves is
  closed, though. `Coalesce.CoalesceBands` and `Coalesce.IndexRight` give the exact condition: the index is that of the
  last band if and only if no band but the last has been merged, which is so unless several bands are added and the
  first of them continues the band before; then it is too large by the boxes of that band. `Coalesce.IndexTooLarge` is
  such an input. The one caller that adds several bands does not use the index.

## Left out

- RegionOps.IntersectRegions: the two sources and the destination are not all the same region; the code then computes the size of its new list from the region it has just emptied.
- RegionOps.SubtractRegions: the same; the destination may be either source.
- RegionQueries.RectInRegion: rectangles of no width or height, which have no points to ask about.
- RegionShrink.ShrinkRegion: coordinates stay in the range of `short` on the way, judged by the extents of the region: a list of runs longer than the extents is known to be empty, one that is empty because of gaps in the region is not.
- RegionShrink.OffsetRegion: coordinates stay in the range of `short`; an overflow is not modelled.
- OptimalTable.GenOptimalTable: total counts above the cap of 1000000000 that the search starts from, a table without any symbol, and more than 254 symbols, for which an 8-bit length count could wrap.
- OptimizedScan.WriteOptimized: scans of no block, and counts above the cap of OptimalTable.GenOptimalTable; which of the scans with 9227464 symbols or more the code refuses.
- SeqOptimized.WriteOptimizedSequential: the same, per table.
- VirtualArray.RealizeArrays: arrays of a thousand million rows or more, the code's own stand-in for "no limit".
- ContextRows.BottomPointers: samples; a row of a buffer is represented by the number of the image row it holds.
- Regions: the allocated size of a box list, its growth, and failure to allocate; building regions from polygons; clipping calls of the drawing library.
- The compressor's destination running full in the middle of an MCU; the progressive compressor does not allow it, and the sequential one gives the MCU up.
- Recovery from a wrong restart marker (`jpeg_resync_to_restart`), which is heuristic; the decoders report it.
- Decoding at reduced size, where the sequential decoder skips coefficients that are not needed.
- The width of stored coefficients: the decoder keeps them in 16 bits, the model as integers; the encoders refuse values beyond their range.
- The wrap-around of 32-bit dimensions in products of sizes.
- APPn, COM, DAC and DNL contents, which are skipped by length, and the JFIF and Adobe headers; skipping is modelled as waiting for all bytes of the segment.
- Warnings, trace messages and error texts; an error is a failed result.
- Missing Huffman tables when decoding starts, which is an error before any data are read.
- The entries of a local symbol buffer of the header reader behind the symbols read, which the code leaves undefined and the model takes as zero, and a scan's first table numbers before any scan header.
- Arithmetic coding, DCT, colour conversion, sampling and quantization: straight-line arithmetic.
- The main controller without context rows and its post-processing crank, and minimum DCT size 1, which the code does not support with context rows.
- Per-scan MCU geometry and the selection of a script's parameters for a scan; the pass machine keeps the scan's number.
- Memory pools and small allocations, and files behind backing stores, which are sequences of rows.
