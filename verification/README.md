# Verified models of the decoder, the join tree, the sort and the formats

This project models five parts of the detection system and proves what they promise. All of them
are stateful code that works in place, and most have a fast form whose meaning is much simpler than
its text; the models keep the fast form and prove that it means the simple one.

## The JPEG decoder (`detector_training/src/jpgd.cpp`)

The decoder is followed from the bytes of the file to the samples of a row of MCUs.

- `BitStream`, `BitReaders`: the 32-bit bit buffer over the byte-stuffed entropy segment of ITU-T T.81
  section B.1.1.5, with its push-back and its two refill paths. Whatever calls are made, the bits
  delivered are the consecutive bits of the un-stuffed segment, and ones from the next marker on.
- `CanonicalCode`, `TreeSize`, `HuffmanTrie`, `HuffmanCover`, `HuffmanTables`, `HuffmanDecode`: the
  codes of T.81 Annex C, the four arrays that `make_huff_table` packs them into, and both forms of
  `huff_decode`. Decoding by look-up table and packed overflow tree finds exactly the canonical code
  word the bits begin with.
- `BlockDecoder`, `IdctTables`, `Idcts`, `RowDecoder`: `decode_next_row` with its stale coefficient
  buffer, restart markers, and the inverse DCT that table look-up prunes. The samples are those of the
  unpruned transform of freshly cleared blocks, which is the double sum of T.81 section A.3.3 up to rounding.
- `BitCode`, `BlockEncoder`, `RowEncoder`: the coding of T.81 section F.1.2 and the bytes it is packed into.
  Whatever coefficients an encoder codes so, `decode_next_row` finds them, from the bytes to the samples.
- `DamagedBlocks`: what sequences of code words are decoded to that no encoder would write.
- `AcRefine`, `ProgressiveScans`: successive approximation of AC coefficients, T.81 sections G.1.2.2 and
  G.1.2.3: what one refinement scan reads and changes, and what any sequence of scans arrives at.
- `FirstEncoder`, `RefineEncoder`, `ProgressiveEncoder`: the coding procedures of these sections, end-of-band
  runs included. Decoding what they code gives back every coefficient, bit by bit, over all scans.
- `McuGeometry`, `McuScanners`, `BlockLoader`: which blocks a scan visits (T.81 section A.2) and when it
  restarts, what the final pass reads back, and what the inverse transform gets from it.
- `Markers`, `MarkerReaders`: marker scanning, which ends on every input, and the segments that define
  Huffman tables, quantisation tables and the restart interval.
- `HeaderWriter`: these segments as T.81 section B.2.4 has them written. A written header is read back exactly.

## The join tree (`bayes_utils.h`)

- `FiniteSums`, `Assignments`, `AssignmentOrder`, `Odometers`: sums and products over assignments, and
  the order in which the code goes through them.
- `JoinTrees`, `MessageLog`, `JoinTreePropagation`: who may send when. The loops end on every tree,
  without deadlock, with one message along each direction of each edge.
- `JoinTreeCheck`: `is_join_tree`, whose walk with a set of dead variables accepts exactly the trees in which
  the cliques on each path have what both ends have.
- `JoinTreeMessages`, `JoinTreeCalibration`, `JoinTreePaths`, `JoinTreeMarginals`: what messages do to the
  tables. Neighbours come to agree, the distribution stays the same, and any tree of which both are
  true has the marginals of that distribution in its cliques.
- `JoinTreeSides`, `JoinTreeFactors`, `JoinTreeRuns`, `NetworkBounds`: `add_probability` cuts sums off
  at 1, which would break all of this. These modules say what every message of every schedule carries,
  so exactly when a sum is cut off, and prove that this never happens for a proper network.
- `ProbabilityTables`, `Networks`, `JoinTreeInference`, `JoinTreeExamples`: the tables, how cliques are filled,
  and the whole of `create_bayesian_network_join_tree` and `probability`. `CreateJoinTree` is the statement its
  documentation makes, on all inputs the documentation asks for.

## Sorting, integers, containers, base64

- `Ordering`, `Sorts` (`sort.h`): quicksort with a shrinking depth budget, heapsort on a range with an
  offset, insertion sort. Sortedness, permutation, the untouched rest, and bounds on nesting and on
  the number of comparisons, for any strict weak order.
- `IntFormat`, `Serialize`, `Containers` (`serialize.h`): the variable-length integers, across different
  integer types, and the strings and vectors built on them.
- `Base64` (`base64_kernel_1.cpp`): the codec of section 6.8 of RFC 2045.

Methods keep the loops, arrays and fields of the original and are proved against a function that says
what they compute; lemmas then say what that function means without using it: as the inverse of an encoder,
by an independent definition, or by the values it has. A `ghost` parameter or result of a method
is there for its contract only.

## What is assumed

- Huffman codes satisfy Kraft's inequality, there are at most 255 of them (`process_markers` checks
  this), and their overflow tree has at most 256 nodes, which `TreeSize.TreeFits` proves if at most 249
  codes are longer than eight bits. One-argument decoding looks code sizes up by symbol, so there the
  symbols of a table are distinct.
- The encoders code what their tables have code words for. A DC difference has at most 15 bits and an AC
  coefficient at most 15, which is what the extra bits of a code word can say, and an end-of-band run is
  shorter than 2^15 blocks, as T.81 has it.
- The components of a scan are distinct, and the frame is one that `init_frame` accepts.
- Probabilities are exact reals and not negative, and all nodes are in the join tree, which is a tree
  and satisfies the path condition that `is_join_tree` checks (`JoinTreeCheck.IsJoinTree`). A network is proper (`NetworkBounds.Proper`)
  if its parents form no cycle and the probabilities of a node's values add up to at most 1, which is
  stricter than `node_cpt_filled_out` by its tolerance of 1e-5.
- Negating the most negative value of a signed type wraps around, as on all machines with two's
  complement; under that reading `Serialize.PackInt` is right for that value, too.
- The comparison of a sort is a strict weak order.
- Base64 input has no byte 255, for which the decoding table has no entry.

## Where the code does less than one might expect

- A zero run of a refinement scan may pass the end of its band and write a coefficient outside
  (`AcRefine.OverrunWritesOutside`); `RefinementMeaning` says exactly when, and
  `ProgressiveScans.FirstKeepsOutside` for first scans. The correction of
  the coefficient -32768 wraps around (`AcRefine.CorrectionKeepsSign`).
- Past the end of the input the reader pads with FF D9, not with FF for ever, so there are ones behind
  the data if and only if a marker ends them (`BitStream.OnesNeedMarker`, `NoInputNoOnes`).
- Unpacking an integer that has few enough bytes but does not fit the target type is not noticed
  (`IntFormat.SilentlyWrong`); `UnpackPacked` says exactly when the value is right.
- A truncated vector of bytes is accepted, and what is missing is left as it was in the vector
  (`Containers.TruncatedBytes`).
- `is_join_tree` does not check that each node is in a clique together with its parents. A node that is not
  is silently left out of the distribution, and the answers are wrong (`JoinTreeExamples.NodeLeftOut`;
  `Networks.LeftOut` says where the distribution is right all the same).
- Sums of several terms are cut off at 1. `JoinTreePropagation.BayesianJoinTree.Propagate` says exactly when.
  It happens to networks that `node_cpt_filled_out` accepts (`JoinTreeExamples.SumCutOff`, `WithinTolerance`),
  and to proper ones if a node is left out (`ProperButCutOff`).

## Model

| member | source | states |
|---|---|---|
| BitStream.StuffedSegment | detector_training/src/jpgd.cpp:396-424 | whatever octets an encoder has byte-stuffed (T.81 section B.1.1.5) come back unchanged, followed by FF octets for ever once a marker is reached |
| BitStream.UnstuffStuff | detector_training/src/jpgd.cpp:396-424 | un-stuffing a stuffed segment that a marker ends gives the segment and stops at the marker |
| BitStream.OnesNeedMarker | detector_training/src/jpgd.cpp:368-377 | the octets behind the data are all FF if and only if a marker ends them |
| BitStream.NoInputNoOnes | detector_training/src/jpgd.cpp:368-377 | empty input, where they are FF and D9 in turn |
| BitStream.StuffedRest | detector_training/src/jpgd.cpp:396-424 | however many octets have been asked for, the input goes on with what is left of the segment and then its marker |
| BitReaders.BitReader.GetChar | detector_training/src/jpgd.cpp:336-386 | delivers the input byte by byte and then FF and D9 in turn, telling which bytes are padding |
| BitReaders.BitReader.StuffChar | detector_training/src/jpgd.cpp:389-393 | puts a byte back in front of the input |
| BitReaders.BitReader.GetOctet | detector_training/src/jpgd.cpp:396-424 | delivers the next octet of the un-stuffed segment and leaves an input that continues it; a marker is never consumed |
| BitReaders.BitReader.GetBitsNoMarkers | detector_training/src/jpgd.cpp:455-489 | returns exactly the next n bits of the un-stuffed stream and moves on by n; the buffer keeps at least 16 valid bits at its top and zeros below, whichever of the two refill paths runs |
| BitReaders.BitReader.GetBits | detector_training/src/jpgd.cpp:427-452 | the same for marker segments, which are not un-stuffed |
| BitReaders.BitReader.PrimeNoMarkers | detector_training/src/jpgd.cpp:1490-1493 | starts the bit buffer at the current input byte for entropy-coded data |
| BitReaders.BitReader.PrimeMarkers | detector_training/src/jpgd.cpp:1430-1435 | starts the bit buffer at the current input byte for marker segments |
| BitReaders.BitReader.FixInBuffer | detector_training/src/jpgd.cpp:1476-1493 | switching from marker segments to entropy-coded data loses no byte and repeats none: the input is the bytes still in the buffer and all bytes behind them, padding and its phase included |
| CanonicalCode.AnnexC | detector_training/src/jpgd.cpp:2224-2273 | the code words are those of T.81 Annex C: they count up, shifted left when the length grows |
| CanonicalCode.BeginsIsPrefix | detector_training/src/jpgd.cpp:2276-2305 | a 16-bit window lies in the interval of a code word if and only if it begins with the bits of that code word |
| CanonicalCode.PrefixFree | detector_training/src/jpgd.cpp:2213-2350 | no window begins with two code words |
| CanonicalCode.BeginsSharesPrefix | detector_training/src/jpgd.cpp:2307-2346 | a window that begins with a code word shares all its shorter prefixes |
| CanonicalCode.InnerIsNoCode | detector_training/src/jpgd.cpp:2307-2346 | a proper prefix of a code word is not a code word itself |
| TreeSize.NodesWithinLongCodes | detector_training/src/jpgd.cpp:2307-2346 | for every code that satisfies Kraft's inequality or not, the overflow tree needs at most seven nodes more than there are codes longer than eight bits |
| TreeSize.TreeFits | detector_training/src/jpgd.h:158-166 | so 249 long codes never outgrow the 512 entries of the tree array |
| HuffmanTables.CodeSizes | detector_training/src/jpgd.cpp:2222-2241 | lists the code lengths in order, as many of each as the counts say |
| HuffmanTables.LengthsCount | detector_training/src/jpgd.cpp:2222-2241 | each length occurs in that list as often as its count says |
| HuffmanTables.CodeWords | detector_training/src/jpgd.cpp:2243-2262 | computes the canonical code word of every length in the list |
| HuffmanDecode.LookUp2Fields | detector_training/src/jpgd.cpp:2276-2305 | an entry of look_up2 tells the symbol, and either the extra bits with the length of code and extra bits together, or that they do not fit and the length of the code alone |
| HuffmanTables.HuffTables.MakeHuffTable | detector_training/src/jpgd.cpp:2213-2350 | afterwards the four arrays represent the code: short codes fill exactly their look-up intervals, and the packed tree has a leaf for exactly the long codes |
| HuffmanTables.HuffTables.InsertShort | detector_training/src/jpgd.cpp:2276-2305 | one code of up to eight bits fills its interval of both look-up tables and nothing else |
| HuffmanTables.HuffTables.InsertLong | detector_training/src/jpgd.cpp:2307-2346 | one longer code adds exactly its missing nodes and its leaf to the packed tree |
| HuffmanTrie.AddChild | detector_training/src/jpgd.cpp:2324-2340 | a new node keeps the packed tree a tree: every node is referred to once |
| HuffmanDecode.WalkTree | detector_training/src/jpgd.cpp:496-505 | walking the packed tree along the bits ends at the leaf that the bits name |
| HuffmanDecode.HuffDecode | detector_training/src/jpgd.cpp:492-513 | on any bits that begin with a code word, the result is that code word's symbol and exactly its length is consumed; what happens where no code word begins is stated too |
| HuffmanDecode.HuffDecode2 | detector_training/src/jpgd.cpp:516-562 | symbol, extra bits and position are those of the specification on every one of the four paths |
| HuffmanDecode.DecodeThenRead | detector_training/src/jpgd.cpp:492-562 | one-argument decoding followed by reading the extra bits gives what two-argument decoding gives |
| HuffmanDecode.DecodeAtCode | detector_training/src/jpgd.cpp:516-562 | the specification yields the symbol of the canonical code word, the bits behind it as extra bits, and the position behind both |
| HuffmanDecode.SymbolAtCode | detector_training/src/jpgd.cpp:492-513 | the same for one-argument decoding |
| BitCode.ReadsCode | detector_training/src/jpgd.cpp:492-562 | where the bits of a symbol's code word stand in the stream, both forms of decoding find the symbol and stand behind it, with the bits that follow as extra bits |
| IdctTables.ZagUnzag | detector_training/src/jpgd.cpp:38 | the zig-zag order is a permutation |
| IdctTables.ZagWalks | detector_training/src/jpgd.cpp:38 | it walks the antidiagonals: up and to the right on even ones, down and to the left on odd ones, turning at the edges of the block |
| IdctTables.RowTableCovers | detector_training/src/jpgd.cpp:230-243 | for every zig-zag position, each row whose table entry is r has all coefficients before that position among its first r |
| IdctTables.ColTableCovers | detector_training/src/jpgd.cpp:230-243 | and the column table covers all rows that have any |
| Idcts.TransformIsDct | detector_training/src/jpgd.cpp:68-120 | the fixed-point butterfly is the 8-point inverse DCT: each of its 64 coefficients is within one unit of 2^-13 of the cosine value rounded to such units |
| Idcts.DoubleAngle | detector_training/src/jpgd.cpp:55-66 | the cosine values it is compared with are themselves right to within rounding: they satisfy the double-angle formula, are not negative in the first quarter, and the first of them squared is 2 |
| Idcts.SamplesNear | detector_training/src/jpgd.cpp:68-228 | two passes with rounding, row first and column then, are that close to the double sum for every block |
| Idcts.TransformCoefficients | detector_training/src/jpgd.cpp:68-120 | and the butterfly is linear with these coefficients |
| Idcts.RowIdct | detector_training/src/jpgd.cpp:75-150 | one row, pruned to its non-zero columns, equals the full row transform; rows without any are not written |
| Idcts.ColIdct | detector_training/src/jpgd.cpp:150-228 | one column, pruned to the rows written, equals the full column transform, and never reads a row that was not written |
| Idcts.Idct | detector_training/src/jpgd.cpp:244-311 | every sample in row y and column x of the output is the double sum of T.81 section A.3.3 over all 64 coefficients, with the fixed-point coefficients of TransformIsDct, level-shifted and clamped to a byte, the error before clamping being at most 5/8; the pruned transform equals the full eight-column, eight-row one on every block that is zero from position block_max_zag on; samples outside the block do not change |
| BlockDecoder.DecodeBlock | detector_training/src/jpgd.cpp:1765-1856 | whatever an earlier block left behind, the buffer holds exactly the coefficients of BlockAt, dequantised, and zero elsewhere; the new bound is right for the next block; invalid data are refused exactly where BlockAt refuses them. BlockDecodes says what BlockAt is: the inverse of the coding of T.81 section F.1.2 |
| BlockDecoder.DecodeAc | detector_training/src/jpgd.cpp:1786-1847 | the same for the AC part, symbol by symbol |
| BlockDecoder.ClearRun | detector_training/src/jpgd.cpp:1795-1812 | a zero run clears the stale coefficients it passes, and only those |
| BlockDecoder.AcFromKeepsRest | detector_training/src/jpgd.cpp:1786-1847 | coefficients behind the last one decoded are not touched |
| BlockDecoder.WrapsAre | detector_training/src/jpgd.cpp:1779-1826 | conversion to 16 and 32 bits gives the value of that width that differs by a multiple of 2^16 or 2^32 |
| BlockDecoder.InPlaceAt | detector_training/src/jpgd.cpp:1816-1826 | coefficient number k of the zig-zag order is stored at the place that the order has for it |
| BlockEncoder.ExtendBack | detector_training/src/jpgd.cpp:566-569 | extending v by s bits gives d, of magnitude category s, if and only if v are the bits that T.81 sections F.1.2.1 and F.1.2.2 write for d: d itself, or d + 2^s - 1 if it is negative |
| BlockEncoder.BlockDecodes | detector_training/src/jpgd.cpp:1765-1856 | any 64 coefficients, coded by T.81 section F.1.2 as a difference to the prediction and run lengths with ZRL and EOB, are decoded to exactly these coefficients times their quantisation steps, ending right behind the code; the next prediction is their DC value |
| DamagedBlocks.AnyBlock | detector_training/src/jpgd.cpp:1786-1856 | what becomes of any code words, also those that no encoder writes: each takes its zeros and one position more and puts its coefficient there; the block is refused if and only if a position beyond the last is reached, and a code of size 0 ends it whatever its run is, unless that is 15 |
| RowDecoder.ScanDecoder.DecodeMcu | detector_training/src/jpgd.cpp:1766-1856 | all blocks of an MCU, each component with its own DC prediction, as the specification chains them |
| RowDecoder.ScanDecoder.TransformMcu | detector_training/src/jpgd.cpp:1495-1506 | the samples of an MCU are the unpruned inverse DCT of its blocks |
| RowDecoder.FindRestart | detector_training/src/jpgd.cpp:1718-1745 | a restart marker is accepted if and only if it is the first marker within 1536 bytes and has the expected number |
| RowDecoder.ScanDecoder.ProcessRestart | detector_training/src/jpgd.cpp:1712-1757 | after a restart the predictions are zero, the count begins anew and decoding goes on right behind the marker |
| RowDecoder.RestartedUnique | detector_training/src/jpgd.cpp:1712-1757 | what a restart goes on with is determined by the input |
| RowDecoder.RestartBehindMarker | detector_training/src/jpgd.cpp:1712-1757 | where a segment ends in the expected restart marker, decoding goes on with exactly the bytes behind that marker |
| RowDecoder.ScanDecoder.constructor | detector_training/src/jpgd.cpp:2457-2458 | a scan begins with no coefficients, no predictions and the whole restart interval |
| RowDecoder.ScanDecoder.Restart | detector_training/src/jpgd.cpp:1766-1767 | fails if and only if there is no marker to restart at |
| RowDecoder.ScanDecoder.NextMcu | detector_training/src/jpgd.cpp:1764-1864 | one MCU, with the restart before it if one is due; it fails if and only if the specification has no next MCU |
| RowDecoder.ScanDecoder.DecodeNextRow | detector_training/src/jpgd.cpp:1760-1865 | a whole row of MCUs, restarts included: the sample buffer holds the unpruned inverse DCT of exactly the blocks that the specification decodes from the input, MCU by MCU; the row fails just at the first MCU that the specification refuses |
| RowDecoder.RowSampleAt | detector_training/src/jpgd.cpp:1495-1506 | where the 64 samples of a block are: those of block b of MCU m of the row stand behind those of all blocks before |
| RowEncoder.McuDecodes | detector_training/src/jpgd.cpp:1766-1856 | the blocks of a whole MCU, coded one after the other with the tables and the prediction of their components, are recovered |
| RowEncoder.RowDecodes | detector_training/src/jpgd.cpp:1760-1865 | any MCUs, coded, padded with ones, byte-stuffed and cut by the markers RST0 to RST7 after each restart interval, are what the specification decodes from these bytes, row by row |
| RowEncoder.NeverStuck | detector_training/src/jpgd.cpp:1766-1767 | on such bytes the specification always has a next MCU |
| RowEncoder.DecodeCoded | detector_training/src/jpgd.cpp:1760-1865 | so decode_next_row succeeds on them, and each sample of the row, block by block, is within the error of the transform of the double sum over the coefficients that were coded; it leaves the decoder standing at the next row |
| RowDecoder.McuHasAllBlocks | detector_training/src/jpgd.cpp:1766-1856 | the specification yields one block for every entry of the MCU order |
| AcRefine.RefinementMeaning | detector_training/src/jpgd.cpp:2676-2776 | a refinement scan reads exactly one correction bit for each non-zero coefficient of the band besides its control bits, moves non-zero coefficients away from zero by 0 or 2^Al, turns zeros into 0 or plus or minus 2^Al, and keeps everything outside the band if and only if no zero run with a new coefficient passes the end of the band, the value is there already, or the band ends at 63 |
| AcRefine.CorrectionKeepsSign | detector_training/src/jpgd.cpp:2712-2727 | a correction keeps the sign if and only if the coefficient is not -32768 with correction bit one |
| AcRefine.OverrunWritesOutside | detector_training/src/jpgd.cpp:2739-2747 | input on which a zero run passes the end of its band and a coefficient outside is written |
| AcRefine.SkipCorrects | detector_training/src/jpgd.cpp:2709-2737 | a zero run gives the non-zero coefficients it passes one bit each, in order, and stops at a zero or behind the band |
| AcRefine.SkipRun | detector_training/src/jpgd.cpp:2709-2737 | the loop over one zero run, in place |
| AcRefine.DecodeBand | detector_training/src/jpgd.cpp:2687-2749 | the code words of a band, in place, up to its end or an end-of-band run, as Band says; RefineEncoder.RunDecodes says what that is |
| AcRefine.DecodeBlockAcRefine | detector_training/src/jpgd.cpp:2676-2776 | the whole block function, in place: coefficients, position, end-of-band count and error as in Refine; RefineEncoder.ScanDecodes says what that is over all blocks of a scan |
| ProgressiveScans.DecodeBlockAcFirst | detector_training/src/jpgd.cpp:2625-2673 | the first AC scan of a block, in place: coefficients, position, end-of-band count and error as in First; FirstEncoder.ScanDecodes says what that is over all blocks of a scan |
| ProgressiveScans.FirstMeaning | detector_training/src/jpgd.cpp:2625-2673 | a first scan writes multiples of 2^Al, and outside its band only the coefficient, if any, that a zero run puts behind it |
| ProgressiveScans.FirstKeepsOutside | detector_training/src/jpgd.cpp:2625-2673 | it keeps to its band if and only if no zero run passes the end of the band, or the value is there already |
| ProgressiveScans.SuccessiveApproximation | detector_training/src/jpgd.cpp:2676-2776 | whatever any number of refinement scans read, every coefficient keeps the leading bits it had and only gains lower ones |
| ProgressiveScans.AllScans | detector_training/src/jpgd.cpp:2625-2776 | so after all scans of a band the coefficients still have the leading bits of the first scan |
| FirstEncoder.ReadsRun | detector_training/src/jpgd.cpp:2660-2668 | the code word EOBn and the n bits of L - 2^n, for any L from 2^n up to 2^(n+1), are read as a run of L blocks |
| FirstEncoder.RunDecodes | detector_training/src/jpgd.cpp:2625-2673 | such a run takes exactly L blocks: the first one ends there, the others are left as they were and nothing is read for them, and no run is left behind the last |
| FirstEncoder.ScanDecodes | detector_training/src/jpgd.cpp:2625-2673 | any bands of any blocks, coded by T.81 section G.1.2.2 with end-of-band runs divided as the encoder likes, are decoded to exactly these coefficients times 2^Al, ending right behind the code |
| RefineEncoder.SkipStops | detector_training/src/jpgd.cpp:2709-2737 | a zero run stops at the coefficient that the encoder counted it to, and each non-zero coefficient passed has got the bit written for it |
| RefineEncoder.RunDecodes | detector_training/src/jpgd.cpp:2676-2776 | an end-of-band run of a refinement scan takes exactly as many blocks as were coded: no code word is read for them, only their correction bits |
| RefineEncoder.ScanDecodes | detector_training/src/jpgd.cpp:2676-2776 | whatever refinement of the blocks by one bit is coded by T.81 section G.1.2.3, decoding makes exactly that refinement in each block, changes nothing outside the band, and ends right behind the code |
| ProgressiveEncoder.CanRefine | detector_training/src/jpgd.cpp:2676-2776 | dropping one bit less of a coefficient is a refinement that can be coded |
| ProgressiveEncoder.FirstScan | detector_training/src/jpgd.cpp:2625-2673 | after the first scan each coefficient has arrived without its lowest Al bits |
| ProgressiveEncoder.AllScansArrive | detector_training/src/jpgd.cpp:2625-2776 | and with each refinement scan one bit more, until after the last one, for any band, any number of blocks and any tables, nothing is missing |
| ProgressiveEncoder.WholeBand | detector_training/src/jpgd.cpp:2625-2776 | which means that every coefficient of the band is the one the encoder had |
| DamagedBlocks.BandDecodes | detector_training/src/jpgd.cpp:2640-2659 | the same for any codes of a first scan, which are refused if and only if they pass the end of the block, not only that of the band |
| DamagedBlocks.SizesRefused | detector_training/src/jpgd.cpp:2695-2698 | in a refinement scan a code word for a coefficient of more than one bit is refused wherever it is read |
| McuGeometry.CeilCeil | detector_training/src/jpgd.cpp:2384-2437 | rounding up twice is rounding up once, on which the two ways to count MCUs agree |
| McuGeometry.EachBlockOnce | detector_training/src/jpgd.cpp:2779-2836 | a scan, interleaved or not, visits each block of its grid exactly once and no other |
| McuGeometry.ScanOrdered | detector_training/src/jpgd.cpp:2779-2836 | in the order of T.81 section A.2: MCUs row by row and from left to right, the components of an MCU as the scan lists them, and the blocks of each row by row and from left to right |
| McuGeometry.GridCovers | detector_training/src/jpgd.cpp:2384-2410 | the MCUs of a scan cover all samples of each of its components, with no column and no row of MCUs to spare |
| McuGeometry.GridInBuffer | detector_training/src/jpgd.cpp:2839-2852 | every scan stays inside the coefficient buffers, and an interleaved one visits all of them |
| McuGeometry.AllIsReadBack | detector_training/src/jpgd.cpp:2900-2906 | the final pass over all components reads the whole buffers, so also every block any scan has written |
| McuGeometry.BlocksApart | detector_training/src/jpgd.cpp:2573-2595 | different blocks of a coefficient buffer have disjoint addresses within the memory allocated for it |
| McuScanners.McuScanner.CalcMcuBlockOrder | detector_training/src/jpgd.cpp:2384-2437 | the MCU counts and the component of each block of an MCU |
| McuScanners.OrgIsShort | detector_training/src/jpgd.cpp:2424-2436 | with different components an MCU has at most six blocks, so the block order array is not overrun |
| McuScanners.McuScanner.DecodeScan | detector_training/src/jpgd.cpp:2779-2836 | hands the blocks of the scan to the block decoder in the order of T.81 section A.2, and restarts after each whole interval of MCUs that is not the last |
| McuScanners.RestartPlaces | detector_training/src/jpgd.cpp:2796-2797 | that is before just those MCUs whose number is a positive multiple of the interval |
| McuScanners.McuScanner.LoadNextRow | detector_training/src/jpgd.cpp:1635-1709 | call number my reads exactly the blocks of MCU row my |
| BlockLoader.LoadBlock | detector_training/src/jpgd.cpp:1655-1670 | what becomes of each of them: the block that the inverse transform gets has every coefficient times its quantisation step, wherever the loops over the zig-zag order stop, and the bound is right for the transform and as small as the stored AC coefficients allow |
| McuScanners.InitFrame | detector_training/src/jpgd.cpp:2468-2524 | accepts exactly the supported samplings and counts the MCUs of the frame |
| Markers.OneFirstMarker | detector_training/src/jpgd.cpp:1159-1183 | from any position there is exactly one first marker, at most two bytes into the padding, and past the input it is EOI |
| Markers.StreamPads | detector_training/src/jpgd.cpp:368-377 | behind the input every stream goes on with FF and D9 in turn |
| Markers.SlotsApart | detector_training/src/jpgd.cpp:966-974 | conforming table designations are kept in different places |
| HeaderWriter.QuantsRead | detector_training/src/jpgd.cpp:989-1036 | quantisation tables written as T.81 section B.2.4.1 says, of either precision, are read back entry by entry, each into its own place |
| HeaderWriter.HuffsRead | detector_training/src/jpgd.cpp:928-986 | so are Huffman tables written as section B.2.4.2 says |
| HeaderWriter.SegmentRead | detector_training/src/jpgd.cpp:1187-1261 | and any one segment: DQT, DHT, DRI, or one that is skipped |
| HeaderWriter.HeaderRead | detector_training/src/jpgd.cpp:1187-1261 | any sequence of such segments up to a marker that ends it leaves exactly the tables that were written, later ones in place of earlier ones, and stands right behind that marker |
| MarkerReaders.NextMarker | detector_training/src/jpgd.cpp:1159-1183 | ends on every input and returns the code of the first marker, standing right behind it |
| MarkerReaders.MarkerReader.ReadDht | detector_training/src/jpgd.cpp:928-986 | defines exactly the tables of the segment and consumes exactly its declared length, or fails |
| MarkerReaders.MarkerReader.ReadDqt | detector_training/src/jpgd.cpp:989-1036 | the same for quantisation tables of either precision; HeaderWriter.QuantsRead says which byte becomes which entry |
| MarkerReaders.MarkerReader.ReadDri | detector_training/src/jpgd.cpp:1095-1101 | the same for the restart interval |
| MarkerReaders.MarkerReader.SkipVariableMarker | detector_training/src/jpgd.cpp:1076-1092 | skips exactly the declared length |
| MarkerReaders.MarkerReader.ProcessMarkers | detector_training/src/jpgd.cpp:1187-1261 | ends on every input, valid or not; the marker, the position and the tables are those of Process, which HeaderWriter.HeaderRead pins on every header that can be written |
| Ordering.LevelsBound | Android_app/app/dlib/dlib/sort.h:261-266 | the depth budget allows at most twice as many levels as it has binary digits |
| Sorts.InsertionSort | Android_app/app/dlib/dlib/sort.h:395-424 | sorts the range, permutes it, changes nothing else, with at most k(k+1)/2 comparisons |
| Sorts.Heapify | Android_app/app/dlib/dlib/sort.h:286-339 | restores the heap property below one place of a heap with any offset, in at most two comparisons per level |
| Sorts.TopIsGreatest | Android_app/app/dlib/dlib/sort.h:286-339 | the element at the top of a heap is a greatest one |
| Sorts.HeapSort | Android_app/app/dlib/dlib/sort.h:451-483 | sorts any range with offset, with at most 3 n times bitlength(n) comparisons |
| Sorts.Partition | Android_app/app/dlib/dlib/sort.h:184-228 | splits the range strictly around the pivot with exactly right - left comparisons |
| Sorts.QuickSortMain | Android_app/app/dlib/dlib/sort.h:236-279 | sorts the range, which may be empty; the nesting is bounded by the budget |
| Sorts.QuickSort | Android_app/app/dlib/dlib/sort.h:430-445 | for any strict weak order and any range: a sorted permutation of the range, all else unchanged, at most 2 bitlength(right-left) nested levels, at most 5 n bitlength(n) comparisons |
| IntFormat.UnpackPacked | Android_app/app/dlib/dlib/serialize.h:257-486 | a value packed as any type and unpacked as another fails if and only if the target has too few bytes or is unsigned and the value negative; otherwise exactly the bytes written are consumed, and the value is right if and only if it fits |
| IntFormat.SilentlyWrong | Android_app/app/dlib/dlib/serialize.h:309-371 | a value that has few enough bytes but does not fit is accepted and wrong |
| IntFormat.EncodingsDiffer | Android_app/app/dlib/dlib/serialize.h:257-486 | no encoding is the beginning of another |
| IntFormat.EncodeLayout | Android_app/app/dlib/dlib/serialize.h:257-303 | an encoding is a control byte with the sign in its highest bit and the number of bytes in its lower four, and then the magnitude, lowest byte first, in as few bytes as it needs but at least one |
| Serialize.PackInt | Android_app/app/dlib/dlib/serialize.h:257-303 | writes the encoding of the value, whatever its type, and for the most negative value too |
| Serialize.UnpackInt | Android_app/app/dlib/dlib/serialize.h:309-371 | decodes as the format says and consumes exactly that much on success and on failure |
| Containers.StringRoundTrips | Android_app/app/dlib/dlib/serialize.h:1169-1199 | a string is read back out of any longer input if and only if its length fits the reader's unsigned long |
| Containers.TruncatedString | Android_app/app/dlib/dlib/serialize.h:1183-1199 | an input that ends within a string is always refused |
| Containers.TruncatedBytes | Android_app/app/dlib/dlib/serialize.h:1075-1089 | a truncated vector of bytes is accepted; it comes back right if and only if all that is missing is what the resized vector has there already |
| Containers.TruncatedIntoEmpty | Android_app/app/dlib/dlib/serialize.h:1075-1089 | into an empty vector, if and only if it is zero |
| Containers.VectorsRoundTrip | Android_app/app/dlib/dlib/serialize.h:1020-1053 | if elements can be read back whatever follows them, so can vectors of them, to any depth of nesting |
| Containers.ElementsInOrder | Android_app/app/dlib/dlib/serialize.h:1020-1035 | the encoding of element i stands between those of the elements before and behind it |
| Containers.IntsRoundTrip | Android_app/app/dlib/dlib/serialize.h:488-520 | integers that fit the reader's type are such elements |
| Containers.StringsRoundTrip | Android_app/app/dlib/dlib/serialize.h:1169-1199 | and so are strings |
| Containers.SerializeVector | Android_app/app/dlib/dlib/serialize.h:1020-1035 | writes the number of elements and then each of them |
| Containers.DeserializeVector | Android_app/app/dlib/dlib/serialize.h:1037-1053 | reads them back, and fails where the format says |
| Containers.SerializeString | Android_app/app/dlib/dlib/serialize.h:1169-1181 | writes the length and then the characters |
| Containers.DeserializeString | Android_app/app/dlib/dlib/serialize.h:1183-1199 | reads a string or fails where the format says |
| Containers.DeserializeBytes | Android_app/app/dlib/dlib/serialize.h:1075-1089 | reads a vector of bytes into one that has contents already, without noticing missing ones |
| Base64.Coder.constructor | Android_app/app/dlib/dlib/base64/base64_kernel_1.cpp:35-148 | the encoding table is table 1 of RFC 2045 and the decoding table its inverse |
| Base64.Coder.SetLineEnding | Android_app/app/dlib/dlib/base64/base64_kernel_1.cpp:24-31 | later encodings end lines that way; the tables stay |
| Base64.LetterOfValue | Android_app/app/dlib/dlib/base64/base64_kernel_1.cpp:139-147 | every byte that has a value is the letter of that value |
| Base64.Coder.Encode | Android_app/app/dlib/dlib/base64/base64_kernel_1.cpp:162-305 | writes the encoding of the whole input |
| Base64.Coder.Decode | Android_app/app/dlib/dlib/base64/base64_kernel_1.cpp:309-396 | writes what the groups of four symbols stand for, and fails exactly if the symbols do not make up groups of four |
| Base64.QuadBack | Android_app/app/dlib/dlib/base64/base64_kernel_1.cpp:214-299 | a group of one, two or three bytes survives encoding and decoding |
| Base64.QuadDigits | Android_app/app/dlib/dlib/base64/base64_kernel_1.cpp:214-299 | the letters of a group stand for its bits from the left, six by six, padded with zeros and = |
| Base64.DecodesToOriginal | Android_app/app/dlib/dlib/base64/base64_kernel_1.cpp:162-396 | decoding gives back what was encoded, for each line ending, from any bytes that have the same symbols |
| Base64.NoiseIsSkipped | Android_app/app/dlib/dlib/base64/base64_kernel_1.cpp:377-382 | bytes that are neither in the alphabet nor padding may be put in anywhere |
| Base64.EncodingsConcatenate | Android_app/app/dlib/dlib/base64/base64_kernel_1.cpp:309-396 | encodings may follow one another and decode to the concatenation |
| Base64.LinesAreShort | Android_app/app/dlib/dlib/base64/base64_kernel_1.cpp:178-212 | no line of an encoding has more than 76 characters |
| Base64.FullLines | Android_app/app/dlib/dlib/base64/base64_kernel_1.cpp:178-212 | an encoding is the unbroken one cut into lines of 76 characters, with a line end behind each that is followed by more |
| Base64.LinesEnd | Android_app/app/dlib/dlib/base64/base64_kernel_1.cpp:190-198 | an encoding with line ends LF has no byte 13, one with CR no byte 10, and one with CR LF has each only next to the other |
| Base64.NoLongLine | Android_app/app/dlib/dlib/base64/base64_kernel_1.cpp:178-212 | which means that any 77 consecutive bytes contain a line end |
| AssignmentOrder.LessThan | Android_app/app/dlib/dlib/bayes_utils/bayes_utils.h:65-91 | the loop of operator< computes the order |
| AssignmentOrder.LessIsTotal | Android_app/app/dlib/dlib/bayes_utils/bayes_utils.h:65-91 | the order is total and strict |
| AssignmentOrder.LessIsTransitive | Android_app/app/dlib/dlib/bayes_utils/bayes_utils.h:65-91 | the order is transitive |
| AssignmentOrder.PairsAscend | Android_app/app/dlib/dlib/bayes_utils/bayes_utils.h:65-91 | the order goes through the pairs of an assignment by ascending node |
| AssignmentOrder.FirstDifference | Android_app/app/dlib/dlib/bayes_utils/bayes_utils.h:65-91 | and is decided by the first pair that differs, node before value |
| AssignmentOrder.OneEnumeration | Android_app/app/dlib/dlib/bayes_utils/bayes_utils.h:1325-1334 | so two tables with the same entries are gone through in step |
| ProbabilityTables.CollectMore | Android_app/app/dlib/dlib/bayes_utils/bayes_utils.h:320-345 | adding entries one by one leaves each sum as it is, or at 1 if it has several terms and is greater |
| ProbabilityTables.JointProbabilityTable.Marginalize | Android_app/app/dlib/dlib/bayes_utils/bayes_utils.h:387-413 | each entry is the sum over the entries it comes from, cut off at 1 if there are several |
| ProbabilityTables.JointProbabilityTable.Normalize | Android_app/app/dlib/dlib/bayes_utils/bayes_utils.h:442-455 | afterwards the entries sum to 1, and each of them times the old sum is what it was; there is no result if and only if the old sum is 0 |
| JoinTrees.FirstMessage | Android_app/app/dlib/dlib/bayes_utils/bayes_utils.h:1529-1545 | a node's first message goes to its parent, after all its children have sent theirs |
| JoinTrees.LaterMessage | Android_app/app/dlib/dlib/bayes_utils/bayes_utils.h:1547-1554 | any further message goes to a child that has sent its own |
| JoinTrees.NoDeadlock | Android_app/app/dlib/dlib/bayes_utils/bayes_utils.h:1520-1570 | if no node may send, every edge has been used in both directions |
| JoinTrees.FirstKeepsOrder | Android_app/app/dlib/dlib/bayes_utils/bayes_utils.h:1529-1545 | a first message keeps the schedule in order |
| JoinTrees.LaterKeepsOrder | Android_app/app/dlib/dlib/bayes_utils/bayes_utils.h:1547-1570 | so does a later one |
| MessageLog.OneMoreSent | Android_app/app/dlib/dlib/bayes_utils/bayes_utils.h:1520-1570 | every message is sent after its sender has heard from all other neighbours, and at most once |
| MessageLog.EachEdgeBothWays | Android_app/app/dlib/dlib/bayes_utils/bayes_utils.h:1520-1570 | in the end there is exactly one message along each direction of each edge |
| JoinTreeCalibration.FirstCalibrates | Android_app/app/dlib/dlib/bayes_utils/bayes_utils.h:1303-1356 | a first message leaves the marginal of the child on the edge, and the parent zero where that is zero |
| JoinTreeCalibration.AnswerCalibrates | Android_app/app/dlib/dlib/bayes_utils/bayes_utils.h:1303-1356 | an answer makes both cliques agree with the table on the edge |
| JoinTreeCalibration.BalanceKept | Android_app/app/dlib/dlib/bayes_utils/bayes_utils.h:1303-1356 | each message keeps product of cliques over product of edge tables at every global assignment, zeros included |
| JoinTreePropagation.Divide | Android_app/app/dlib/dlib/bayes_utils/bayes_utils.h:1318-1335 | the two tables are divided entry by entry although they are gone through side by side |
| JoinTreePropagation.BayesianJoinTree.PassMessage | Android_app/app/dlib/dlib/bayes_utils/bayes_utils.h:1303-1356 | one message, in place, with sums cut off exactly where they have several terms and are greater than 1 |
| JoinTreePropagation.BayesianJoinTree.StartLists | Android_app/app/dlib/dlib/bayes_utils/bayes_utils.h:1500-1512 | every node still has to send to each neighbour and to hear from each |
| JoinTreePropagation.BayesianJoinTree.SendFirst | Android_app/app/dlib/dlib/bayes_utils/bayes_utils.h:1529-1545 | the first message of a node, with both lists brought up to date |
| JoinTreePropagation.BayesianJoinTree.SendAnswer | Android_app/app/dlib/dlib/bayes_utils/bayes_utils.h:1547-1554 | an answer, with both lists brought up to date |
| JoinTreePropagation.BayesianJoinTree.VisitRoot | Android_app/app/dlib/dlib/bayes_utils/bayes_utils.h:1557-1568 | the root answers all its neighbours, but only after it has heard from all of them |
| JoinTreePropagation.BayesianJoinTree.Propagate | Android_app/app/dlib/dlib/bayes_utils/bayes_utils.h:1500-1570 | the message loop ends on every tree; each directed edge is used exactly once, each time after hearing from all other neighbours; all lists end empty; sums are cut off at 1 if and only if one of the sums named by Carried is greater than 1; and if none is cut off, neighbours agree with the edge tables and the distribution is unchanged |
| JoinTreeSides.SidesShare | Android_app/app/dlib/dlib/graph_utils/graph_utils.h:1096-1143 | cliques on the two sides of an edge have nothing in common but the variables of the edge |
| JoinTreeFactors.Gather | Android_app/app/dlib/dlib/bayes_utils/bayes_utils.h:1303-1356 | sums over the sides of several neighbours factor into what each of them tells |
| JoinTreeFactors.MessageIs | Android_app/app/dlib/dlib/bayes_utils/bayes_utils.h:1303-1356 | what a node tells a neighbour is the sum over all variables on its side of the product of the tables that side began with |
| JoinTreeRuns.FactoredKept | Android_app/app/dlib/dlib/bayes_utils/bayes_utils.h:1303-1356 | at any time a clique has its first table times what the neighbours heard from so far have told, also where a message has to be divided by an old one that is 0 |
| JoinTreeRuns.MessageCarries | Android_app/app/dlib/dlib/bayes_utils/bayes_utils.h:1303-1356 | so every message, in whatever order messages are sent, carries the same sums |
| JoinTreeRuns.CutsIfTooGreat | Android_app/app/dlib/dlib/bayes_utils/bayes_utils.h:320-345 | a message is cut off if and only if it has a sum of several terms that is greater than 1 |
| JoinTreeRuns.ExplainedAfter | Android_app/app/dlib/dlib/bayes_utils/bayes_utils.h:320-345 | a sum is cut off at 1 if and only if one of these sums is greater than 1 |
| NetworkBounds.SumOut | Android_app/app/dlib/dlib/bayes_utils/bayes_utils.h:1448-1469 | the product of the conditional probabilities of some nodes, summed over their values, is at most 1 if parents form no cycle |
| NetworkBounds.MessageBounded | Android_app/app/dlib/dlib/bayes_utils/bayes_utils.h:320-345 | for a proper network no one-sided sum exceeds 1 |
| NetworkBounds.NeverTooGreat | Android_app/app/dlib/dlib/bayes_utils/bayes_utils.h:320-345 | so no message of a proper network is ever cut off |
| JoinTreeCheck.Validate | Android_app/app/dlib/dlib/graph_utils/graph_utils.h:1089-1149 | accepts if and only if on no path from the node, away from where the walk came from, a dead variable occurs or a variable comes back after it was gone; the dead variables are then what they were |
| JoinTreeCheck.AllLast | Android_app/app/dlib/dlib/graph_utils/graph_utils.h:1099-1106 | nothing comes back on any path if and only if all cliques on a path have the variables that both ends have |
| JoinTreeCheck.IsJoinTree | Android_app/app/dlib/dlib/graph_utils/graph_utils.h:1182-1218 | accepts a tree if and only if it satisfies that condition on paths, every edge holds what its ends share, and the cliques contain just the nodes of the network |
| JoinTreePaths.PathsIntersect | Android_app/app/dlib/dlib/graph_utils/graph_utils.h:1096-1143 | the condition that is_join_tree checks along paths gives the running intersection property from any root |
| JoinTreePaths.ReRoot | Android_app/app/dlib/dlib/graph_utils/graph_utils.h:1096-1143 | which survives moving the root |
| JoinTreeMarginals.StepBack | Android_app/app/dlib/dlib/bayes_utils/bayes_utils.h:1520-1570 | summing out the last clique of the order leaves the marginal of the distribution |
| JoinTreeMarginals.CliquesAreMarginals | Android_app/app/dlib/dlib/bayes_utils/bayes_utils.h:1376-1388 | once neighbours agree, every clique has exactly the marginal of the distribution that the tree represents |
| Odometers.Advance | Android_app/app/dlib/dlib/bayes_utils/bayes_utils.h:1473-1489 | steps on to the next assignment, carrying over |
| Odometers.NextRank | Android_app/app/dlib/dlib/bayes_utils/bayes_utils.h:1473-1489 | counting goes up by one |
| Odometers.NextEnds | Android_app/app/dlib/dlib/bayes_utils/bayes_utils.h:1473-1489 | and ends only at the last assignment |
| Networks.InitialBalance | Android_app/app/dlib/dlib/bayes_utils/bayes_utils.h:1413-1493 | the initial tables represent the joint probability of the network with its evidence |
| Networks.AllHoused | Android_app/app/dlib/dlib/bayes_utils/bayes_utils.h:1448-1469 | nothing is missing if every node is in some clique together with its parents |
| Networks.LeftOut | Android_app/app/dlib/dlib/bayes_utils/bayes_utils.h:1448-1469 | otherwise the distribution is that without the nodes left out; it is right exactly where it is 0 or their probabilities make up 1 |
| JoinTreeExamples.NodeLeftOut | Android_app/app/dlib/dlib/bayes_utils/bayes_utils.h:1364-1572 | the whole computation on a proper network of two nodes and a join tree that leaves one of them out: no sum is cut off, and the answer is 0.5 and 0.5 where network and evidence say 0.45 to 0.05 |
| JoinTreeExamples.ProperButCutOff | Android_app/app/dlib/dlib/bayes_utils/bayes_utils.h:320-345 | a proper network whose join tree leaves a node out, so that a message sums to 2 and is cut off |
| JoinTreeExamples.SumCutOff | Android_app/app/dlib/dlib/bayes_utils/bayes_utils.h:320-345 | a network whose probabilities add up to more than 1, and a message of it that is cut off, although all nodes are with their parents |
| JoinTreeExamples.WithinTolerance | Android_app/app/dlib/dlib/bayes_utils/bayes_utils.h:1067-1105 | by as little as the constructor tolerates: the sum is above 1 by at most 1e-5 |
| JoinTreeExamples.Posterior | Android_app/app/dlib/dlib/bayes_utils/bayes_utils.h:1251-1273 | the whole computation on a proper network of two nodes with evidence: 0.45 and 0.05 become 0.9 and 0.1 |
| JoinTreeInference.InitialValue | Android_app/app/dlib/dlib/bayes_utils/bayes_utils.h:1430-1469 | an entry is 1, or 0 against the evidence, times the probabilities of the nodes assigned to the clique |
| JoinTreeInference.InitClique | Android_app/app/dlib/dlib/bayes_utils/bayes_utils.h:1413-1491 | every assignment of a clique is visited exactly once and gets its entry |
| JoinTreeInference.CreateJoinTree | Android_app/app/dlib/dlib/bayes_utils/bayes_utils.h:1364-1572 | the whole algorithm: for a proper network and its join tree, every clique ends with exactly the joint probability of its variables and the evidence; for other inputs it does so for the nodes that have a clique with their parents, unless a sum was cut off, and exactly when that is so is told by the initial tables |
| JoinTreeInference.ValueAtMostOne | Android_app/app/dlib/dlib/bayes_utils/bayes_utils.h:1251-1273 | for a proper network the marginals that probability() adds up are not cut off either |
| JoinTreeInference.AllSeen | Android_app/app/dlib/dlib/bayes_utils/bayes_utils.h:1251-1273 | so for a proper network what probability() normalizes is the joint probability itself |
| JoinTreeInference.EvidenceProbability | Android_app/app/dlib/dlib/bayes_utils/bayes_utils.h:1251-1273 | the joint probabilities of the values of a node and the evidence make up the probability of the evidence, which is what they are divided by |
| JoinTreeInference.SmallestClique | Android_app/app/dlib/dlib/bayes_utils/bayes_utils.h:1231-1248 | finds the first smallest clique that contains a node |
| JoinTreeInference.Probability | Android_app/app/dlib/dlib/bayes_utils/bayes_utils.h:1251-1273 | the answer sums to 1, and each of its entries times the probability of the evidence is the joint probability of that value and the evidence, with sums of several terms cut off at 1, if the cliques are the marginals of a joint distribution, as CreateJoinTree leaves them unless a sum was cut off on the way; there is no answer if and only if the sum is 0 |

## Left out

- The decoder's file and memory streams, its refill in chunks of 8 KB, `malloc` and `longjmp`: the input is
  one finite byte sequence, memory is fresh arrays, and an error is a failure result.
- Frequency-domain upsampling of chroma and colour conversion, which depend on rounded constants.
- The segments SOF and SOS, `locate_soi_marker` and the decoder's outermost loops, which check fields one by one.
- The DC scans of progressive images, which have no state besides the prediction.
- 32-bit overflow in the inverse DCT: its integers are unbounded.
- RowDecoder.ScanDecoder.DecodeNextRow: says when decoding fails, but not what is in the buffers then. How many octets the bit buffer has taken in after an MCU is left open between two values if the position is a multiple of 16; in damaged data in which a restart comes early, the search for its marker begins there.
- McuScanners.McuScanner.DecodeScan: says which blocks are visited and where restarts come, but leaves out the block decoders, and so what is done when one of them or a restart fails.
- McuScanners.McuScanner.LoadNextRow: says which blocks are read; what is done to each of them is `BlockLoader.LoadBlock`, and the two are not put together.
- JoinTreeCheck.IsJoinTree: begins behind the tests that the graph is connected and has no cycle.
- Rounding of floating-point numbers in probability tables.
- The Gibbs sampler, and how a network or a join tree is built.
- NetworkBounds.NeverTooGreat: asks for probabilities that add up to at most 1; `node_cpt_filled_out` tolerates 1e-5 more, and then a sum may be cut off, just where `JoinTreeRuns.CutsIfTooGreat` says.
- Failures of output streams.
- The sizes at which index arithmetic in the sorts or a container's memory would overflow.
- The ASCII format for floating-point numbers, and serialisation of types other than integers, strings and vectors.
- `array`, `array2d`, sockets, threads and the trainers.
