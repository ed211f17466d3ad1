# A verified model of the remote desktop's codecs and screen mirror

The remote desktop grabs tiles of a screen, codes them as JPEG, LZ4 or raw pixels, and
mirrors them in a server's framebuffer, from which a VNC buffer is kept up to date. This
Dafny project models the algorithms on that path whose correctness is not plain from
reading them, in the form they have in the source: objects with mutable registers and
buffers, loops over arrays, and pure tables and predicates. Each is proved against a
specification that says what it is for.

`dafny verify dfyconfig.toml` checks the whole project. Automatic induction is
switched off: every lemma says where it uses its own induction hypothesis.

## The parts

**Arithmetic coding of JPEG** (`Shifts`, `ByteCode`, `ProbabilityTable`, `IntervalCoder`,
`ArithEncoder`, `ArithDecoder`). `IntervalCoder` is the coder of ITU-T T.81, Annex D, on
unbounded integers: an interval, the statistics, and when a string of bytes lies inside an
interval. The encoder and the decoder have the registers of the source, in their two different
layouts, with stacked 0xFF bytes, pending zeros, one held byte, byte stuffing and the removal of
trailing zeros. Both refine the interval coder, and so undo each other
(`ArithTranscoding.TranscodeDecisions`). No shorter string than the one sent would do
(`FinishPass`), and the estimates move as an estimator's should (`MpsLowers`, `LpsRaises`,
`EstimateMoves`).

**Binarisation and scans** (`Binarisation`, `McuEncoder`, `McuDecoder`, `ScanCoding`,
`EntropyEncoder`, `EntropyDecoder`, `BinBounds`, `ArithTranscoding`). Sections F.1.4.4 and
G.1.3.3 of T.81: blocks as decisions, sequential and progressive, first scans and refinements,
with restart intervals. `TranscodeScan` takes a whole scan through encoder and decoder.

**Scan scripts** (`ScanScript`, `ImageTranscoding`, `FrameLayout`). The validator accepts exactly
the scripts it should, and for every accepted script the scans, one after the other, reconstruct
the image to the precision the script reaches (`TranscodeImage`). Padding blocks at the right and
bottom edge may hold anything in interleaved scans, and be missing in others. `FrameLayout` lays
the scans out for any image size and sampling factors (`TranscodeFrame`).

**Huffman tables** (`Frequencies`, `HuffmanTree`, `CodeCost`, `OptimalTable`, `PseudoSymbol`,
`CodeLengths`, `BitStrings`, `DerivedTable`, `TableLengths`, `HuffmanTables`, `LongestTree`).
Section K.2 and Annex C of T.81: merging with linked chains in arrays, limiting to 16 bits,
canonical codes. Before limiting, no prefix-free code is cheaper (`NoCodeIsCheaper`). The
pseudo-symbol is always on the deepest level, so that as long as nothing is limited the table
itself is as cheap as any code that keeps a word free (`OptimalCodes`). Limiting keeps the code
space used, in units of the longest code. The overflow error needs at least Fibonacci(35) occurrences, and occurs with
just so many (`LongestTree`).

**Huffman coding in sequential mode** (`HuffmanPasses`, `DecodingTable`, `SymbolDecoding`,
`HuffmanDecoder`). The counting pass and the output pass see the same symbols; with the tables
built from the counts, a decoder that has only the bytes and the tables sent reads back the same
blocks (`HuffmanRoundTrip`).

**Bit writers** (`BitPacking`, `BitWriters`, `FlushLoss`). The 64-bit writer that empties its
buffer late and the 24-bit one that empties it at once write the same bytes, except that the
late one overflows its buffer if it is flushed with more than 57 bits in it. `NothingLost` is
the exact condition. `FlushLoss` takes it back to the tables: it holds for every scan if no end-of-block
code has more than ten bits (`RoundTripByTables`), and fails for a scan of two zero blocks with
legal, longer ones (`ScanLosesBits`).

**Progressive Huffman AC scans** (`EobRuns`, `ProgressiveAc`, `AcBits`, `AcRefineStream`,
`AcRefineDecoder`, `AcFirstDecoder`, `AcScans`). Section G.1.2 of T.81: runs of ended blocks,
correction bits waiting in a buffer of 1000, and the decoder for both kinds of scan.
`SuccessiveScans` takes a band from its first scan down to the last bit, each scan with its own
optimal table, as bytes.

**Passes** (`PassControl`). Which passes there are over an image, in which order, and what is
written when, for every script and every way of delivering the scanlines.

**Quantiser** (`Quantizer`). Multiplying by a reciprocal instead of dividing, for every word
width from 16 bits on.

**Screen mirror** (`Frames`, `Projector`, `Mirror`). Differences by tile, boxes grown to nine
pixels a side that overlap their neighbours, regions drawn in order, and the second comparison
that feeds the VNC buffer. What is shown equals what was grabbed, over whole sessions.

**Smaller cores**: the LZ4 block decoder (`Lz4`), ICC profiles split over markers
(`IccProfile`), the resumable JSON tokeniser (`JsonTokens` the specification, `JsonText` and
`JsonComplete` values, their texts and what becomes of them, `JsonParser` the parser), and the ring of context rows for downsampling (`ContextRows`).

## Where the code differs from what one expects

- `BitWriters.LazyWriter.FlushBits`: a flush with 58 to 63 bits in the 64-bit buffer loses its
  oldest bits. The project states exactly when the output is still right, and every result that
  depends on it has that condition.
- `Projection.Projector.ScreenDiff`: 9999 stands for "no change yet", so a change at column 9999
  or beyond is not noticed (`FarChangesAreLost`, `WideScreenLosesPixel`); convergence holds for
  screens up to 9999 columns. Rows have no such limit, but a box never starts below row 9999.
- A box is grown on screen only if the screen is at least 16 pixels wide and high
  (`GrownOnScreen`).
- An ICC profile of more than 255 parts is written without complaint and cannot be read back
  (`LongProfileIsRejected`).
- The decoder reports a magnitude overflow for DC differences beyond 32768 that the encoder
  codes happily; `TranscodeScan` is accepted exactly if there is none, which holds for
  coefficients of eight-bit images (`SmallImageIsSmooth`) and fails for the extreme ones
  (`ExtremesOverflow`).
- The parameters `Ah` and `Al` of a script go up to 10; for larger values than the precision
  of the data the reconstruction is still what `ApproxDc` and `ApproxAc` say.
- Optimal tables sort symbols by the lengths before limiting. As the comment in the source
  suspects, this works: the result is a legal table for the symbols that occur.

## Model

| member | source | states |
|---|---|---|
| `ProbabilityTable.Qe` | thirdparty/libjpeg-turbo-2.0.3/jaricom.c:32-153 | every LPS estimate of the table lies between 1 and 0x5B12, and every next state is in the table |
| `ProbabilityTable.MpsLowers` | thirdparty/libjpeg-turbo-2.0.3/jcarith.c:249-264 | after an MPS the LPS is estimated less probable and the MPS is the same, at every entry but 13 and 113, which stay |
| `ProbabilityTable.LpsRaises` | thirdparty/libjpeg-turbo-2.0.3/jcarith.c:239-248 | after an LPS it is estimated more probable, except that ten entries, all above 0x5570, exchange the symbols and 113 stays |
| `ProbabilityTable.FreshBinLearns` | thirdparty/libjpeg-turbo-2.0.3/jaricom.c:36-49 | a fresh bin is at entry n after n estimates that follow an MPS, up to entry 13, with these fourteen probabilities |
| `ProbabilityTable.EveryBinLearns` | thirdparty/libjpeg-turbo-2.0.3/jaricom.c:36-152 | every adaptive bin ends at entry 13 if only the MPS occurs |
| `ProbabilityTable.LpsByte` | thirdparty/libjpeg-turbo-2.0.3/jcarith.c:231-248 | the exclusive-or of state byte and table byte is the next state, switch included |
| `ProbabilityTable.MpsByte` | thirdparty/libjpeg-turbo-2.0.3/jcarith.c:249-264 | so it is after an MPS |
| `IntervalCoder.LpsGetsLess` | thirdparty/libjpeg-turbo-2.0.3/jcarith.c:238-263 | the LPS never gets the larger part, and what it gets is below 0x8000; without exchange it is the upper one |
| `IntervalCoder.EstimateMoves` | thirdparty/libjpeg-turbo-2.0.3/jcarith.c:239-264 | the estimate of the bin moves exactly if the interval is renormalised, and no other does |
| `IntervalCoder.ThirdZeroIsCheaper` | thirdparty/libjpeg-turbo-2.0.3/jcarith.c:224-317 | two zeros in a fresh bin leave it at entry 1, with probability 0x2586 |
| `IntervalCoder.NarrowSplits` | thirdparty/libjpeg-turbo-2.0.3/jcarith.c:240-265 | the two subintervals of a decision divide the code strings of the interval: each lies in exactly one |
| `IntervalCoder.RenormaliseKeepsInside` | thirdparty/libjpeg-turbo-2.0.3/jcarith.c:267-316 | doubling an interval keeps exactly its code strings |
| `IntervalCoder.CodeStringDeterminesDecisions` | thirdparty/libjpeg-turbo-2.0.3/jdarith.c:114-191 | a code string inside the final intervals of two runs of the same bins forces the same bits |
| `IntervalCoder.NextDecisionForced` | thirdparty/libjpeg-turbo-2.0.3/jdarith.c:165-190 | of the two outcomes of the next decision only the encoded one keeps the code string inside |
| `ArithEncoding.DenotesAfterByte` | thirdparty/libjpeg-turbo-2.0.3/jcarith.c:271-315 | moving eight bits from the register to the byte stack, with or without carry, keeps the base of the interval denoted |
| `ArithEncoding.DenotesAfterShift` | thirdparty/libjpeg-turbo-2.0.3/jcarith.c:268-270 | shifting the registers by one bit denotes the doubled interval |
| `ArithEncoding.ArithEncoder.Carry` | thirdparty/libjpeg-turbo-2.0.3/jcarith.c:274-285 | a carry adds exactly one to the bytes pending or sent; no emitted segment ends in a zero byte |
| `ArithEncoding.ArithEncoder.PushByte` | thirdparty/libjpeg-turbo-2.0.3/jcarith.c:271-315 | bytes sent, pending zeros, held byte and stacked 0xFF bytes together stand for the number so far; a carry needs a held byte; only 0xFF bytes may leave none held |
| `ArithEncoding.ArithEncoder.Release` | thirdparty/libjpeg-turbo-2.0.3/jcarith.c:152-184 | everything held and stacked reaches the output, trailing zeros kept back |
| `ArithEncoding.ArithEncoder.Renorm` | thirdparty/libjpeg-turbo-2.0.3/jcarith.c:267-316 | registers and bytes denote the renormalised interval, exactly |
| `ArithEncoding.ArithEncoder.Encode` | thirdparty/libjpeg-turbo-2.0.3/jcarith.c:224-317 | one decision: the registers refine the unbounded interval coder, statistics included |
| `ArithEncoding.ArithEncoder.FinishPass` | thirdparty/libjpeg-turbo-2.0.3/jcarith.c:138-199 | the flushed segment, stuffed and without trailing zeros, lies inside the interval of all decisions, and no shorter code string does |
| `ArithEncoding.NoShorter` | thirdparty/libjpeg-turbo-2.0.3/jcarith.c:144-151 | the number with the most trailing zero bits in the interval gives the fewest bytes |
| `ArithEncoding.ArithEncoder.Restart` | thirdparty/libjpeg-turbo-2.0.3/jcarith.c:324-359 | a closed segment and its marker, after which the coder starts afresh |
| `ArithEncoding.FinalBytesValue` | thirdparty/libjpeg-turbo-2.0.3/jcarith.c:144-155 | the value chosen for the last bytes, with its low bits cleared, lies in the final interval |
| `ArithDecoding.ArithDecoder.Begin` | thirdparty/libjpeg-turbo-2.0.3/jdarith.c:719-731 | a segment whose code string lies inside the interval of future decisions is ready to be decoded |
| `ArithDecoding.ArithDecoder.FetchByte` | thirdparty/libjpeg-turbo-2.0.3/jdarith.c:125-146 | stuffed zeros are dropped, fill bytes skipped, and behind the marker zeros are supplied for ever |
| `ArithDecoding.ArithDecoder.Renorm` | thirdparty/libjpeg-turbo-2.0.3/jdarith.c:122-155 | after shifting, the registers locate the code string in the interval of the coder |
| `ArithDecoding.ArithDecoder.Decode` | thirdparty/libjpeg-turbo-2.0.3/jdarith.c:114-191 | the decoded bit is the one encoded, and the decoder follows the same interval coder and statistics |
| `ArithDecoding.ArithDecoder.NextMarker` | thirdparty/libjpeg-turbo-2.0.3/jdmarker.c:890-934 | bytes left over in a segment are skipped up to its marker |
| `ArithDecoding.ArithDecoder.Restart` | thirdparty/libjpeg-turbo-2.0.3/jdarith.c:198-230 | behind a restart marker the next segment is decoded from fresh statistics |
| `ArithTranscoding.TranscodeDecisions` | thirdparty/libjpeg-turbo-2.0.3/jcarith.c:138-317 | the round trip: any list of decisions is decoded from its own bytes, whatever fill and marker follow, and both sides end with the same statistics |
| `ArithTranscoding.ExtremesOverflow` | thirdparty/libjpeg-turbo-2.0.3/jdarith.c:544-553 | the overflow is real: DC values -32768 and 32767 in a row |
| `Binarisation.ApproxAcRefines` | thirdparty/libjpeg-turbo-2.0.3/jdarith.c:435-497 | a refinement bit moves an AC coefficient from one precision to the next |
| `Binarisation.ApproxError` | thirdparty/libjpeg-turbo-2.0.3/jcarith.c:484-500 | what a scan at precision al leaves unknown is less than 2^al, towards zero for AC and downwards for DC |
| `ScanCoding.ApproxDcRefines` | thirdparty/libjpeg-turbo-2.0.3/jdarith.c:402-428 | a refinement bit moves a DC coefficient from one precision to the next |
| `BinBounds.BlockUsed` | thirdparty/libjpeg-turbo-2.0.3/jcarith.c:685-820 | every decision of the DC part uses a bin below 49 of its component's DC table, of the AC part one below 245 of its AC table, or the fixed bin |
| `McuEncoding.EncodeDc` | thirdparty/libjpeg-turbo-2.0.3/jcarith.c:367-450 | a DC difference is coded by the decisions of section F.1.4.1 of ITU-T T.81, and leaves their context |
| `McuEncoding.EncodeAcFirst` | thirdparty/libjpeg-turbo-2.0.3/jcarith.c:458-550 | a band is coded by the decisions of Figure F.5 |
| `McuEncoding.EncodeAcRefine` | thirdparty/libjpeg-turbo-2.0.3/jcarith.c:592-678 | a refined band is coded by the decisions of Figure G.10 |
| `McuDecoding.DecodeDc` | thirdparty/libjpeg-turbo-2.0.3/jdarith.c:269-317 | from those decisions the same difference and context come back; a magnitude overflow is reported exactly for differences beyond 32768 |
| `McuDecoding.DecodeAcFirst` | thirdparty/libjpeg-turbo-2.0.3/jdarith.c:328-395 | from a band's decisions all its coefficients come back at the precision of the scan |
| `McuDecoding.DecodeAcRefine` | thirdparty/libjpeg-turbo-2.0.3/jdarith.c:435-497 | with the coefficients of the coarser precision at hand, a refined band ends with those of the finer |
| `EntropyEncoding.EntropyEncoder.EncodeBlock` | thirdparty/libjpeg-turbo-2.0.3/jcarith.c:709-817 | one block adds its decisions to the log and leaves the predictions of the next |
| `EntropyEncoding.EntropyEncoder.EncodeMcu` | thirdparty/libjpeg-turbo-2.0.3/jcarith.c:685-820 | over any run, with restarts, each finished segment encodes its own MCUs from fresh statistics and predictions |
| `EntropyEncoding.EntropyEncoder.FinishPass` | thirdparty/libjpeg-turbo-2.0.3/jcarith.c:138-199 | the whole output is the segments in order with their restart markers |
| `EntropyDecoding.EntropyDecoder.DecodeBlock` | thirdparty/libjpeg-turbo-2.0.3/jdarith.c:524-621 | one block: the decoded block holds what the scan conveys; an error is reported exactly if a DC difference is out of range |
| `EntropyDecoding.EntropyDecoder.DecodeMcu` | thirdparty/libjpeg-turbo-2.0.3/jdarith.c:504-624 | one MCU, past a restart marker where one is due |
| `ArithTranscoding.TranscodeScan` | thirdparty/libjpeg-turbo-2.0.3/jdarith.c:504-624 | any scan, sequential or progressive, first or refinement, survives coding: the decoder accepts it exactly if no DC difference overflows, and then holds every coefficient at the precision of the scan |
| `ScanScript.ValidateScript` | thirdparty/libjpeg-turbo-2.0.3/jcmaster.c:178-310 | a script is accepted exactly if every scan is well-formed and continues the precision of each coefficient; a refusal names the first bad scan and which of the tests it fails, in the order they are made |
| `ScanScript.CheckProgression` | thirdparty/libjpeg-turbo-2.0.3/jcmaster.c:235-276 | a progressive scan is accepted exactly if its ranges are legal and each coefficient goes one bit further |
| `ImageTranscoding.ImageAfter` | thirdparty/libjpeg-turbo-2.0.3/jcmaster.c:259-275 | after a scan every coefficient of the image is known at the precision the script has reached |
| `ImageTranscoding.TranscodeImage` | thirdparty/libjpeg-turbo-2.0.3/jcmaster.c:217-289 | for every accepted script, with padding blocks of any contents where MCUs are interleaved, running all scans through encoder and decoder leaves each coefficient at its last precision; a script that takes all to bit 0 gives back exactly the image; success is exactly the absence of DC overflow |
| `ImageTranscoding.SmallImageIsSmooth` | thirdparty/libjpeg-turbo-2.0.3/jdarith.c:544-553 | with DC values, padding included, as the encoder makes them from 8-bit samples no difference overflows, so every accepted script is decoded |
| `FrameLayout.MaxSampling` | thirdparty/libjpeg-turbo-2.0.3/jcmaster.c:121-136 | the largest sampling factors; refused exactly if one is not from 1 to 4 |
| `FrameLayout.BlockHoldsSamples` | thirdparty/libjpeg-turbo-2.0.3/jcmaster.c:149-155 | a component has a block row or column exactly where it has samples |
| `FrameLayout.PerScanSetup` | thirdparty/libjpeg-turbo-2.0.3/jcmaster.c:356-437 | which component each block of an MCU belongs to; refused exactly if an interleaved MCU has more than ten blocks |
| `FrameLayout.BuildLayout` | thirdparty/libjpeg-turbo-2.0.3/jccoefct.c:341-408 | the slots of a scan, in raster order of MCUs and within each by component, row and column; those behind the edge are padding |
| `FrameLayout.LaidOutIsValid` | thirdparty/libjpeg-turbo-2.0.3/jcmaster.c:356-437 | for any image size and sampling factors such a scan visits every block of its components exactly once |
| `FrameLayout.TranscodeFrame` | thirdparty/libjpeg-turbo-2.0.3/jcmaster.c:217-437 | every image of any size and sampling, through every accepted script: unless an MCU has too many blocks or a DC difference overflows, each coefficient at its last precision, and the very image if that is bit 0 |
| `ImageTranscoding.ExactOnlyAtBitZero` | thirdparty/libjpeg-turbo-2.0.3/jcmaster.c:262-274 | reconstruction is exact for all values if and only if the last precision is bit 0 |
| `HuffmanTree.TreeIsComplete` | thirdparty/libjpeg-turbo-2.0.3/jchuff.c:943-961 | the code lengths of a merged tree use the code space exactly |
| `OptimalTable.AssignCodeSizes` | thirdparty/libjpeg-turbo-2.0.3/jchuff.c:914-962 | the chain-merging loop gives every symbol its depth in one tree over exactly the counted symbols, of total weight at least a Fibonacci number of its height; no lengths that fit the code space cost fewer bits |
| `OptimalTable.MergeHeavy` | thirdparty/libjpeg-turbo-2.0.3/jchuff.c:943-945 | merging the two lightest trees keeps the Fibonacci bound |
| `HuffmanTables.HeightBound` | thirdparty/libjpeg-turbo-2.0.3/jchuff.c:967-970 | below Fibonacci(35) occurrences no code is longer than 32 bits, so the overflow error cannot occur |
| `LongestTree.OneMoreIsTooMany` | thirdparty/libjpeg-turbo-2.0.3/jchuff.c:967-970 | that bound is sharp: a histogram of total Fibonacci(35) whose only possible tree has height 33 |
| `LongestTree.Overflow` | thirdparty/libjpeg-turbo-2.0.3/jchuff.c:967-970 | the table builder reports the overflow for it |
| `CodeCost.MergeCost` | thirdparty/libjpeg-turbo-2.0.3/jchuff.c:943-945 | merging the two rarest symbols: any lengths that fit the code space before give lengths that fit after, cheaper by at least the two counts |
| `CodeCost.KraftInequality` | thirdparty/libjpeg-turbo-2.0.3/jchuff.c:873-888 | the words of a prefix-free code fit the code space |
| `CodeCost.NoCodeIsCheaper` | thirdparty/libjpeg-turbo-2.0.3/jchuff.c:873-888 | no prefix-free code, whatever its words, takes fewer bits for the counts than the optimal lengths |
| `CodeLengths.CountLengths` | thirdparty/libjpeg-turbo-2.0.3/jchuff.c:964-974 | lengths are counted exactly, and one beyond 32 is reported exactly when there is one |
| `CodeLengths.ShiftKeepsComplete` | thirdparty/libjpeg-turbo-2.0.3/jchuff.c:989-996 | one step of limiting keeps the number of codes and the code space used |
| `CodeLengths.LimitLengths` | thirdparty/libjpeg-turbo-2.0.3/jchuff.c:976-998 | limiting to 16 bits ends, always finds a shorter code to split, the longest there is, keeps the code complete, and leaves short codes alone |
| `CodeLengths.RemovePseudoSymbol` | thirdparty/libjpeg-turbo-2.0.3/jchuff.c:1000-1006 | without the pseudo-symbol exactly one code of the longest length is spare |
| `CodeLengths.SortSymbols` | thirdparty/libjpeg-turbo-2.0.3/jchuff.c:1008-1021 | symbols come out by code length, then by value, each once |
| `DerivedTable.MakeDerivedTable` | thirdparty/libjpeg-turbo-2.0.3/jchuff.c:220-306 | a table is accepted exactly if it has at most 256 codes, leaves code space over and lists distinct symbols in range; codes are then the canonical ones |
| `DerivedTable.PrefixFree` | thirdparty/libjpeg-turbo-2.0.3/jchuff.c:263-305 | no code word begins another, and none is all ones |
| `HuffmanTables.GenOptimalTable` | thirdparty/libjpeg-turbo-2.0.3/jchuff.c:890-1025 | from an admissible histogram: a legal table for exactly the symbols that occur, unless the tree is deeper than 32; the tree comes from always merging the two smallest counts, the larger symbol on a tie, and before limiting no code is cheaper; the table has its levels, limited and without the pseudo-symbol, its symbols in order of depth and number, each with a code of just its depth if none is over 16 |
| `HuffmanTables.OptimalCodes` | thirdparty/libjpeg-turbo-2.0.3/jchuff.c:890-1025 | building and deriving together: code words of 1 to 16 bits, prefix-free, none all ones, for exactly the symbols counted; they are those of the tree, and if that is at most 16 high, in particular below 4181 occurrences, no prefix-free code that keeps a word free is cheaper |
| `PseudoSymbol.PseudoIsDeepest` | thirdparty/libjpeg-turbo-2.0.3/jchuff.c:907-912 | the pseudo-symbol ends on the deepest level of the tree, whatever the counts |
| `TableLengths.SizesAreOwn` | thirdparty/libjpeg-turbo-2.0.3/jchuff.c:1008-1021 | with as many codes of each length as symbols of it, every symbol of the sorted list gets a code of its own length |
| `HuffmanTables.TreeSizesCheapest` | thirdparty/libjpeg-turbo-2.0.3/jchuff.c:873-888 | such a table is no more expensive than any prefix-free code that keeps a word as short free, and with a longer one the difference is all that is saved |
| `HuffmanPasses.SlotsApart` | thirdparty/libjpeg-turbo-2.0.3/jchuff.c:1044-1063 | DC and AC tables, and tables of different numbers, are never mixed up |
| `HuffmanPasses.GatherPass.HtestOneBlock` | thirdparty/libjpeg-turbo-2.0.3/jchuff.c:755-821 | counts exactly the symbols of the block, and fails exactly on magnitudes out of range |
| `HuffmanPasses.GatherPass.EncodeMcuGather` | thirdparty/libjpeg-turbo-2.0.3/jchuff.c:826-858 | the same over an MCU, with restart intervals |
| `HuffmanPasses.OutputPass.EncodeOneBlock` | thirdparty/libjpeg-turbo-2.0.3/jchuff.c:508-614 | puts exactly the symbols of the block with their value bits |
| `HuffmanPasses.OutputPass.EncodeMcuHuff` | thirdparty/libjpeg-turbo-2.0.3/jchuff.c:646-710 | the same over an MCU; at a restart the open segment is closed and predictions start again |
| `HuffmanPasses.SegmentsAreScan` | thirdparty/libjpeg-turbo-2.0.3/jchuff.c:619-639 | the segments between restart markers, put together, are the symbols that were counted |
| `HuffmanPasses.ScanExpected` | thirdparty/libjpeg-turbo-2.0.3/jchuff.c:556-577 | symbols of accepted blocks are below 251 in AC tables and below 16 in DC tables, and each table of the scan is used |
| `HuffmanPasses.FinishPassGather` | thirdparty/libjpeg-turbo-2.0.3/jchuff.c:1032-1067 | each table is built once, however many components share it |
| `HuffmanPasses.GatherScan` | thirdparty/libjpeg-turbo-2.0.3/jchuff.c:826-858 | the counts of a scan are how often each symbol of each table occurs in it |
| `HuffmanPasses.OutputScan` | thirdparty/libjpeg-turbo-2.0.3/jchuff.c:646-710 | the codes put, segment by segment, are those of the scan's symbols |
| `HuffmanPasses.EncodeOptimally` | thirdparty/libjpeg-turbo-2.0.3/jchuff.c:826-1067 | both passes: no symbol that is put lacks a code, and each table is the optimal one for how often its symbols occur in the scan |
| `DecodingTable.MakeDecodingTable` | thirdparty/libjpeg-turbo-2.0.3/jdhuff.c:157-276 | limits, offsets and lookahead table mean the canonical code; exactly the usable tables are accepted |
| `DecodingTable.SearchStops` | thirdparty/libjpeg-turbo-2.0.3/jdhuff.c:215-231 | a code read bit by bit exceeds the limits of all shorter lengths, meets its own, and leads to its position |
| `DecodingTable.StartsOnce` | thirdparty/libjpeg-turbo-2.0.3/jdhuff.c:233-257 | eight bits start with one code at most |
| `SymbolDecoding.SearchAt` | thirdparty/libjpeg-turbo-2.0.3/jdhuff.c:462-485 | on any stream the search stops at a position inside the table |
| `SymbolDecoding.BitReader.JpegHuffDecode` | thirdparty/libjpeg-turbo-2.0.3/jdhuff.c:450-486 | a stream that starts with a code word gives its symbol and loses exactly its bits; any other gives a symbol of the table or 0 |
| `SymbolDecoding.BitReader.HuffDecode` | thirdparty/libjpeg-turbo-2.0.3/jdhuff.h:191-212 | the lookahead table gives the same |
| `SymbolDecoding.LookAhead` | thirdparty/libjpeg-turbo-2.0.3/jdhuff.h:201-205 | eight bits start with a short code word ahead, and with none if the code word ahead is long |
| `HuffmanDecoding.ExtendValue` | thirdparty/libjpeg-turbo-2.0.3/jdhuff.c:489-518 | low bits of a value, or of its predecessor if negative, give it back |
| `HuffmanDecoding.HuffDecoder.DecodeBlock` | thirdparty/libjpeg-turbo-2.0.3/jdhuff.c:573-633 | from an encoder's stream the very block and prediction |
| `HuffmanDecoding.HuffDecoder.DecodeMcu` | thirdparty/libjpeg-turbo-2.0.3/jdhuff.c:765-801 | an MCU, across restarts; zero once data are missing |
| `HuffmanDecoding.ReadSegment` | thirdparty/libjpeg-turbo-2.0.3/jdhuff.c:317-365 | the data bytes of a segment, unstuffed, up to its marker |
| `HuffmanDecoding.DecodeScan` | thirdparty/libjpeg-turbo-2.0.3/jdhuff.c:560-801 | any stream is decoded; an encoder's gives its MCUs |
| `HuffmanDecoding.HuffmanRoundTrip` | thirdparty/libjpeg-turbo-2.0.3/jchuff.c:508-1067 | counting, building the optimal tables, writing, and decoding with nothing but the tables sent give back every block, provided no segment loses bits in its final flush, for which at most 57 bits waiting suffice |
| `FlushLoss.ShortEndOfBlocksLoseNothing` | thirdparty/libjpeg-turbo-2.0.3/jchuff.c:466-486 | if no end-of-block code has more than ten bits, no segment of any scan has more than 57 bits waiting at its end, and none loses any |
| `FlushLoss.RoundTripByTables` | thirdparty/libjpeg-turbo-2.0.3/jchuff.c:508-1067 | under that condition on the tables alone the decoder reads back the same blocks |
| `FlushLoss.ScanLosesBits` | thirdparty/libjpeg-turbo-2.0.3/jchuff.c:466-614 | the loss is real: legal tables and a scan of two zero blocks for which the 64-bit writer gives other bytes than the codes call for |
| `BitWriters.LazyWriter.EmitCode` | thirdparty/libjpeg-turbo-2.0.3/jchuff.c:345-406 | code and value bits are appended, bytes stuffed as they leave |
| `BitWriters.LazyWriter.FlushBits` | thirdparty/libjpeg-turbo-2.0.3/jchuff.c:466-486 | the segment is right if and only if the waiting bits beyond 57 are zeros |
| `BitWriters.EagerWriter.EmitBits` | thirdparty/libjpeg-turbo-2.0.3/jcphuff.c:327-363 | the code is appended; a code of no bits is refused |
| `BitWriters.EagerWriter.FlushBits` | thirdparty/libjpeg-turbo-2.0.3/jcphuff.c:366-372 | the segment packs all bits, padded with ones |
| `BitWriters.WritersAgree` | thirdparty/libjpeg-turbo-2.0.3/jcphuff.c:327-372 | the writers give the same bytes exactly if the lazy one loses nothing; the bytes are the codes, padded with ones, every 0xFF followed by 0x00 |
| `BitWriters.FlushLosesBits` | thirdparty/libjpeg-turbo-2.0.3/jchuff.c:466-486 | four code words, none longer than 16 bits, that leave 63 bits waiting, the first of them a one: bits are lost |
| `Quantizer.Flss` | thirdparty/libjpeg-turbo-2.0.3/jcdctmgr.c:82-110 | the position of the highest one bit |
| `Quantizer.ReciprocalDivides` | thirdparty/libjpeg-turbo-2.0.3/jcdctmgr.c:114-170 | multiplying by the stored reciprocal, corrected and shifted, is division for every number that fits the word |
| `Quantizer.ComputeReciprocal` | thirdparty/libjpeg-turbo-2.0.3/jcdctmgr.c:172-221 | the four slots of a divisor hold such a reciprocal, and no others change; SIMD is refused exactly for divisor 1 and for shifts of at most 16 |
| `Quantizer.Quantize` | thirdparty/libjpeg-turbo-2.0.3/jcdctmgr.c:416-438 | each sample is the rounded quotient, stored in 16 bits |
| `Quantizer.QuantizeByDivision` | thirdparty/libjpeg-turbo-2.0.3/jcdctmgr.c:442-474 | so is it by division |
| `Quantizer.QuantizersAgree` | thirdparty/libjpeg-turbo-2.0.3/jcdctmgr.c:407-476 | both branches give the same for every word of at least 16 bits, every divisor from 1 to 65535 and every sample that fits |
| `Quantizer.RoundedIsNearest` | thirdparty/libjpeg-turbo-2.0.3/jcdctmgr.c:447-474 | the result is the nearest multiple, ties away from zero |
| `PassControl.Compressor.PrepareForPass` | thirdparty/libjpeg-turbo-2.0.3/jcmaster.c:448-523 | a pass starts with the parameters of its own scan; the coefficient controller is never asked for a mode it lacks; it fails exactly on arithmetic coding with optimization, or more than four components without a script |
| `PassControl.Compressor.WriteScanlines` | thirdparty/libjpeg-turbo-2.0.3/jcapistd.c:77-112 | headers go out before the first line, and lines beyond the image are ignored |
| `PassControl.Compressor.FinishPassMaster` | thirdparty/libjpeg-turbo-2.0.3/jcmaster.c:550-583 | which scan and pass come next |
| `PassControl.Compressor.FinishCompress` | thirdparty/libjpeg-turbo-2.0.3/jcapimin.c:161-196 | ends with as many passes as planned, all scans written, and all rows of the image in every pass |
| `PassControl.PassesAreWhole` | thirdparty/libjpeg-turbo-2.0.3/jcapimin.c:174-190 | passes start and end in pairs; the first has all scanlines if the application supplies them, every other all rows of MCUs |
| `PassControl.HeadersInOrder` | thirdparty/libjpeg-turbo-2.0.3/jcmaster.c:492-543 | one frame header, before all scan headers, which follow the script |
| `PassControl.PassesInOrder` | thirdparty/libjpeg-turbo-2.0.3/jcmaster.c:479-514 | each scan has one output pass, right after its statistics pass if it has one: with optimization, unless it refines DC |
| `PassControl.FirstScanIsFirst` | thirdparty/libjpeg-turbo-2.0.3/jcmaster.c:229-275 | an accepted script does not begin with a refinement of DC |
| `PassControl.Compress` | thirdparty/libjpeg-turbo-2.0.3/jcapimin.c:161-196 | a whole compression, for any script and any calls: which outcome, too little data exactly if the lines delivered and taken are fewer than the height, and the complete order of passes, headers and rows, all rows in every pass |
| `Projection.GrownOnScreen` | RemoteDesktop/projector.c:284-313 | a box grown to nine pixels a side covers what it covered and stays on screen, whatever the box, if and only if the screen side is at least 16 |
| `Projection.Projector.DiffTile` | RemoteDesktop/projector.c:238-282 | the comparison buffer takes over the tile, and each bound of the box is the coordinate of a pixel that differs |
| `Projection.Projector.ScreenDiff` | RemoteDesktop/projector.c:227-364 | a region is sent exactly if a pixel of the tile left of column 9999 changed; it is the least box around the changes, grown, it is on screen, and it carries the buffer |
| `Projection.Projector.UpdateScreen` | RemoteDesktop/projector.c:366-403 | all tiles: one region for each tile that calls for one, row by row; drawing them in order, although they overlap and may carry stale pixels, shows the screen |
| `Projection.BoxIsTight` | RemoteDesktop/projector.c:284-316 | a side of a region is never below nine pixels, and if longer, a pixel changed on both of its edge lines; only row 9999 may be a top edge without one |
| `Mirror.Connection.Bitblit` | ControlServer/fbops.c:6-36 | the rectangle is copied where it meets the screen, and nothing else changes |
| `Mirror.Translator.UpdateScreen` | ControlServer/translator.c:25-88 | the VNC buffer becomes the framebuffer, and the marked rectangle is the least box around all changes, and one column more |
| `Mirror.ReceiveRegions` | ControlServer/main.c:464-534 | regions are drawn in the order they arrive |
| `Mirror.Converged` | ControlServer/main.c:464-534 | a buffer that showed the old screen shows the new one |
| `Mirror.Update` | ControlServer/main.c:464-534 | one round: server buffer, comparison buffer and VNC buffer equal the screen |
| `Mirror.Session` | ControlServer/main.c:464-534 | over a whole session every screen grabbed is shown, up to 9999 columns |
| `Mirror.FarChangesAreLost` | RemoteDesktop/projector.c:230-284 | whenever all changes are at column 9999 or beyond, the client notes them and the server goes on showing the old screen |
| `Mirror.WideScreenLosesPixel` | RemoteDesktop/projector.c:230-284 | a run of the mirror in which a single changed pixel at column 9999 is not shown |
| `Lz4.FillIsCopy` | RemoteDesktop/WebClient/lz4dec.js:117-119 | filling with the last byte is the overlapping copy of offset 1 |
| `Lz4.BlockCopyIsCopy` | RemoteDesktop/WebClient/lz4dec.js:120-122 | a block copy is the bytewise copy as long as the parts do not overlap |
| `Lz4.CopyMatchInPlace` | RemoteDesktop/WebClient/lz4dec.js:112-127 | all three ways of copying a match have the bytewise meaning |
| `Lz4.DecompressBlock` | RemoteDesktop/WebClient/lz4dec.js:60-131 | every serialised list of sequences decompresses to its meaning, and no byte behind it changes |
| `IccProfile.WriteIccProfile` | thirdparty/libjpeg-turbo-2.0.3/jcicc.c:48-105 | the profile in parts of at most 65519 bytes, numbered from 1 |
| `IccProfile.MarkersAreFull` | thirdparty/libjpeg-turbo-2.0.3/jcicc.c:56-90 | every marker but the last has all the 65533 bytes a marker can have |
| `IccProfile.ReadIccProfile` | thirdparty/libjpeg-turbo-2.0.3/jdicc.c:73-171 | succeeds exactly if the ICC markers are numbered without gap or repetition, and then joins the parts in order |
| `IccProfile.ShuffledReadsBack` | thirdparty/libjpeg-turbo-2.0.3/jdicc.c:73-171 | any order of the parts, among any other markers, holds the profile |
| `IccProfile.LongProfileIsRejected` | thirdparty/libjpeg-turbo-2.0.3/jcicc.c:56-75 | a profile of more than 255 parts cannot be read back |
| `IccProfile.ProfileRoundTrip` | thirdparty/libjpeg-turbo-2.0.3/jdicc.c:73-171 | a written profile is read back, in whatever order, exactly if it has at most 255 parts |
| `JsonTokens.Resumes` | thirdparty/jsmn/jsmn.h:268-453 | a parse that ran out of tokens, resumed with more, ends as if it had had them from the start |
| `JsonTokens.DryRunAgrees` | thirdparty/jsmn/jsmn.h:268-453 | counting without tokens gives the number a successful parse fills in |
| `JsonTokens.CountedTokensSuffice` | thirdparty/jsmn/jsmn.h:268-453 | with as many tokens as counted a parse does not run out |
| `JsonTokens.StepKeepsLaminar` | thirdparty/jsmn/jsmn.h:275-441 | each step keeps the spans nested or disjoint |
| `JsonTokens.SuccessIsNested` | thirdparty/jsmn/jsmn.h:443-452 | after a successful parse all spans are closed, and nested or disjoint |
| `JsonComplete.Complete` | thirdparty/jsmn/jsmn.h:268-453 | every JSON value, with any white space, is parsed into exactly its tokens: kinds, spans, and numbers of children, in preorder |
| `JsonComplete.TooFewTokens` | thirdparty/jsmn/jsmn.h:281-291 | with fewer tokens than that the parser says so |
| `JsonComplete.CutOffIsPartial` | thirdparty/jsmn/jsmn.h:443-452 | a list or object cut off anywhere is reported as partial |
| `JsonComplete.BadEscapeIsInvalid` | thirdparty/jsmn/jsmn.h:218-256 | a backslash before any character that is not an escape is invalid, anywhere in a string |
| `JsonComplete.BadCharIsInvalid` | thirdparty/jsmn/jsmn.h:162-165 | so is a character that is not printable in a word |
| `JsonParser.ReadDocument` | thirdparty/jsmn/jsmn.h:268-453 | the parser itself on the text of any value: the count, the very tokens, or the error if there are too few |
| `JsonParser.Parser.ParsePrimitive` | thirdparty/jsmn/jsmn.h:135-188 | a primitive and its token, or the position restored |
| `JsonParser.Parser.ParseString` | thirdparty/jsmn/jsmn.h:193-263 | a string with its escapes, or the position restored |
| `JsonParser.Parser.ParseChar` | thirdparty/jsmn/jsmn.h:275-441 | one character does what the specification of a step says, with and without tokens |
| `JsonParser.Parser.Parse` | thirdparty/jsmn/jsmn.h:268-453 | the parser refines the specification from any state it may be left in |
| `JsonParser.CountThenParse` | thirdparty/jsmn/jsmn.h:268-453 | counting and then parsing with that many tokens: same count, nested spans, all closed |
| `JsonParser.ParseInTwoGoes` | thirdparty/jsmn/jsmn.h:268-453 | resuming after running out of tokens gives the same tokens as one parse |
| `ContextRows.RingShows` | thirdparty/libjpeg-turbo-2.0.3/jcprepct.c:264-302 | the wraparound pointers show the rows of a window, wherever the ring stands |
| `ContextRows.PrepController.PreProcessContext` | thirdparty/libjpeg-turbo-2.0.3/jcprepct.c:194-256 | rows are taken and groups produced as long as there is room; each group sees its window |
| `ContextRows.PreProcessImage` | thirdparty/libjpeg-turbo-2.0.3/jcprepct.c:194-256 | however many rows each call offers and groups it asks for, group g sees image rows (g-1)v to (g+2)v-1, clamped to the image, and each call stops only for want of rows or room |
| `ContextRows.ContextPointers` | thirdparty/libjpeg-turbo-2.0.3/jcprepct.c:264-302 | five row groups of pointers over three of rows, wrapped at both ends |
| `EobRuns.AddKeepsBlocks` | thirdparty/libjpeg-turbo-2.0.3/jcphuff.c:415-436 | taking a block into the open run, or flushing it, loses and reorders no block |
| `EobRuns.ScanItemsAreGroups` | thirdparty/libjpeg-turbo-2.0.3/jcphuff.c:415-436 | the items of a scan are runs and single blocks, in order |
| `EobRuns.RunsAreMaximal` | thirdparty/libjpeg-turbo-2.0.3/jcphuff.c:984-994 | a run ends only before a block with symbols of its own, or at 0x7FFF blocks, or when the correction bits of another block might not fit |
| `ProgressiveAc.AcEncoder.RoomForNext` | thirdparty/libjpeg-turbo-2.0.3/jcphuff.c:984-994 | between blocks: correction bits wait only in a run, the run is below 0x7FFF, and the buffer has room for another block |
| `ProgressiveAc.AcEncoder.EmitEobrun` | thirdparty/libjpeg-turbo-2.0.3/jcphuff.c:415-436 | the run and its correction bits are sent, each once and in order; the error of more than 14 bits cannot occur |
| `ProgressiveAc.AcEncoder.EncodeMcuAcFirst` | thirdparty/libjpeg-turbo-2.0.3/jcphuff.c:584-735 | a block is added to the scan; it fails exactly on magnitudes of more than ten bits |
| `ProgressiveAc.AcEncoder.EncodeMcuAcRefine` | thirdparty/libjpeg-turbo-2.0.3/jcphuff.c:815-1010 | a refined block is added to the scan |
| `ProgressiveAc.AcEncoder.FinishPass` | thirdparty/libjpeg-turbo-2.0.3/jcphuff.c:1017-1031 | nothing waits any more |
| `ProgressiveAc.RefineScan` | thirdparty/libjpeg-turbo-2.0.3/jcphuff.c:815-1031 | a gathering pass counts, and an output pass emits, the items of the scan |
| `ProgressiveAc.GatherThenWrite` | thirdparty/libjpeg-turbo-2.0.3/jcphuff.c:815-1078 | each symbol is emitted as often as it was counted |
| `AcFirstDecoding.FirstAhead` | thirdparty/libjpeg-turbo-2.0.3/jdphuff.c:412-437 | what the next symbol of a band says: a value, sixteen zeros or the end of a run |
| `AcFirstDecoding.DecodeMcuAcFirst` | thirdparty/libjpeg-turbo-2.0.3/jdphuff.c:374-450 | a block at the precision of the scan, from its symbols or from an open run |
| `AcFirstDecoding.FirstScan` | thirdparty/libjpeg-turbo-2.0.3/jcphuff.c:584-735 | a first scan is refused exactly if some magnitude has more than ten bits |
| `AcFirstDecoding.DecodeFirstScan` | thirdparty/libjpeg-turbo-2.0.3/jdphuff.c:374-450 | any table, any bits: a failure or a scan of blocks; from the bits of an encoder's items, all coefficients at the precision of the scan |
| `AcRefineStream.NextSymbol` | thirdparty/libjpeg-turbo-2.0.3/jcphuff.c:861-914 | where the next symbol of a refined band lands, and which correction bits follow it |
| `AcRefineDecoding.CoefRefined` | thirdparty/libjpeg-turbo-2.0.3/jdphuff.c:583-600 | the correction of a coefficient gives its next precision |
| `AcRefineDecoding.AcDecoder.DecodeMcuAcRefine` | thirdparty/libjpeg-turbo-2.0.3/jdphuff.c:508-651 | a block refined, from its symbols or within a run |
| `AcRefineDecoding.DecodeRefineScan` | thirdparty/libjpeg-turbo-2.0.3/jdphuff.c:508-651 | the same for a refinement scan |
| `AcBits.SymbolHeld` | thirdparty/libjpeg-turbo-2.0.3/jcphuff.c:380-388 | the bits of a list of items that starts with a symbol start with its code word, and go on with the bits of the others |
| `AcScans.ScanBelow` | thirdparty/libjpeg-turbo-2.0.3/jcphuff.c:584-1010 | every scan has a symbol, and none above 250, so that its table can be built |
| `AcScans.BuildTable` | thirdparty/libjpeg-turbo-2.0.3/jcphuff.c:1041-1078 | from the counts of a scan: the optimal table, legal and with a code for each symbol of it, certain below Fibonacci(35) items |
| `AcScans.WriteItems` | thirdparty/libjpeg-turbo-2.0.3/jcphuff.c:327-405 | the bytes are those of all items, padded and stuffed |
| `AcScans.FirstScanRoundTrip` | thirdparty/libjpeg-turbo-2.0.3/jdphuff.c:374-450 | a first scan, gathered, its table built, written as bytes, and decoded with the table that was sent: all coefficients at its precision; refused exactly if some magnitude has more than ten bits |
| `AcScans.RefineScanRoundTrip` | thirdparty/libjpeg-turbo-2.0.3/jdphuff.c:508-651 | the same for a refinement: every coefficient one bit finer |
| `AcScans.SuccessiveScans` | thirdparty/libjpeg-turbo-2.0.3/jdphuff.c:374-651 | a first scan and a refinement for every bit below, each through bytes, give back the very coefficients |

## Left out

- DCT, colour conversion, downsampling kernels, SIMD paths and floating point.
- Sockets, threads, timeouts, the user interface, and the grabbers. A region update under a
  mutex is one step. A suspended data destination or source appears only as the number of
  lines a call consumes.
- The memory manager and virtual arrays: blocks are values of 64 coefficients in zigzag order,
  where the source has rows of blocks in natural order. The decoders return new blocks instead
  of writing into buffers.
- Statistics areas are maps from bins to states, cleared where the source zeroes its byte arrays.
- Bit operations on registers are written as arithmetic with the same result; word widths are
  explicit where something can be cut off (64-bit put buffer, 24-bit put buffer, samples of
  the quantiser, 16-bit coefficients, 32-bit DC predictions).
- The state `ct == -1` of the arithmetic decoder, which stops decoding after an error, is the
  field `failed` of EntropyDecoder. Resynchronising after lost restart markers is left out.
- FrameLayout.TranscodeFrame: padding blocks hold anything; that the source fills them with the
  DC value of their neighbour is not stated. Arrays of blocks have no padding of their own.
- HuffmanDecoding.HuffmanRoundTrip: does not cover the case where the final flush of a segment
  loses one bits, because then the bytes do not hold the codes put.
- HuffmanDecoding.HuffDecoder.DecodeMcu: does not cover decode_mcu_fast, which reads ahead
  without a check for markers, or components the application does not need. A restart marker
  with another number than expected ends the data.
- HuffmanDecoding.ReadSegment: reads a segment ahead to its marker, where the source fills a
  word at a time.
- HuffmanPasses.EncodeOptimally: the total of the counts is at most 10^9, as the table builder
  requires; a table has at most 254 symbols because lengths are counted in bytes.
- HuffmanTables.OptimalCodes: what limiting to 16 bits costs is not bounded; the source does not
  claim to do it at least cost.
- Huffman tables given by the application, the default tables, and the suppression of tables
  already sent.
- Progressive Huffman DC scans: the first is the DC part of a sequential scan after a point
  transform, a refinement sends one bit for each block.
- Restart markers in progressive Huffman scans, which flush the open run as FinishPass does.
- AcFirstDecoding.DecodeMcuAcFirst: a value behind the end of the band, possible in a corrupted
  stream only, is a failure here; the source stores it in another coefficient.
- AcScans.WriteItems: value bits and correction bits are written one at a time; the source
  writes those of one value together, which gives the same bytes.
- AcScans.SuccessiveScans: each scan has its own table and one component, and no restart markers.
- PassControl.Compressor: rows are counted, not coded; the coders above say what coding them
  means. Errors of per_scan_setup are in FrameLayout only.
- Quantizer.ComputeReciprocal: does not say what the scale slot holds, which only SIMD code uses.
- Mirror.Connection.Bitblit: pixels of four bytes only.
- Mirror.Session: payloads are raw or LZ4, or come from a codec without loss. A session starts
  with zero buffers on both sides; reconnecting with an old comparison buffer is left out.
- Lz4.DecompressBlock: for well-formed blocks; the wrapper that passes the size of the output
  for the size of the input is left out, and so is reading or writing beyond typed arrays.
- JsonParser.Parser: the configuration without strict mode and parent links.
- ContextRows.PrepController: colour conversion is the identity, and an image row is one value.
