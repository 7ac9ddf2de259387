# Verified model of the query processing library

The library compresses, filters and checksums columns of data, on an accelerator or on the host. This
project models its algorithmic core in Dafny and proves what that core promises, for every input and
every run:

- **Checksums.** The reference CRC-64 folds 32-bit words over a 96-bit register; it is proved equal to
  the bit-serial shift register, whose state is the only remainder of a division of polynomials. CRC-32
  is proved equal to the running CRC of RFC 1952.
- **DEFLATE parsing.** The lazy match search and the driver of the statistics pass; the tokens chosen
  decode to the input whatever the hash table holds, and the counters count exactly those tokens.
- **Bit-packed columns.** Cursor copies between bit orders, masked select and expand, storing,
  unpacking through a 64-bit buffer, scans, index lists, the Parquet RLE/bit-packing hybrid and
  run-length expansion, all against one element-level meaning, with the laws that relate them.
- **The bit writer.** Its output is the concatenation of the codes; overflow keeps a correct prefix.
- **Asynchronous jobs.** Submit, check, wait and execute as a state machine over arbitrary answers
  of the accelerator and the host engine, with theorems over whole runs.
- **Buffer sizing.** The safe DEFLATE output size against the stored-block format.

`dafny verify dfyconfig.toml` checks the whole project.

## How the model is built

A machine word that the code shifts and masks is the sequence of its bits, least significant first
(`Words`); table positions, element indices and repetition counts, which it only adds and compares
(`Matcher`, `ScanIndex`, `ExpandRle`), are numbers with their 32-bit bound or wrap written out. A byte
buffer is read as a bit stream from either end of its bytes (`Streams`). A packed column is the packed form of a
sequence of elements (`Packing`); every cursor routine is proved to write exactly such a form. What the
formats mean is also stated in plain arithmetic, without these functions: elements as digit groups of one
large number (`ColumnValues`), runs of the hybrid encoding byte by byte (`PrleValues`), the job calls by
operation and flag (`JobCases`), the deflate run by the positions at which it is cut. Fields
and buffers that the library updates in place are fields and arrays here, and the loops are its loops.
Code that the library repeats for each pair of bit orders is modelled once with the bit orders as
parameters.

What an engine, a device or the network answers is a parameter of the call that receives it. A hash
function is an arbitrary function. Memory is never exhausted and pointers are never null.

Some promises turn out not to hold everywhere. For each there is the exact condition and an example:

- The PRLE counting pass counts in 32 bits, so a stream of 166 bytes can hold more values than it
  reports (`Prle.CountCanBeTooSmall`); the count is exact if and only if the run headers announce
  fewer than 2^32 values (`Prle.CountIsExact`).
- A repeated PRLE value is taken from whole bytes and not cut to its width. Every value decoded from a
  stream of width w is below 2^w if and only if the bits beyond the width are zero in every repeated value;
  for width zero these are the byte that follows (`Prle.DecodedValuesFit`, `Prle.PaddingIsKept`,
  `Prle.ZeroWidthReadsOn`).
- The copies from a big-endian source keep their bit offset in 32 bits. They stay inside the
  source and copy every column if and only if it ends within 2^32 bits (`Copy.ReadsEveryColumn`); the last
  of 2^27 + 1 elements of 32 bits is read from the place of the first (`Copy.LastElementReadAsFirst`).
  The same bound decides whether a copy to the other bit order and back stays inside its buffers and is
  the identity (`RoundTrips.ThereAndBackKeeps`).
- Expanding a big-endian source reports a short source only when the elements need at least two bytes more than
  given, because the bounds comparison uses the byte behind the source (`Copy.ExpandMaskedBig`,
  `Copy.ExpandsBehindTheSource`).
- The unused bits after the last scan verdict are cleared unless the last byte holds exactly one verdict, or
  there are at least 2^32 - 7 of them and the number of bytes wraps to zero (`Scan.ScanPadding`,
  `Scan.OneVerdictKeepsPadding`).
- The bit writer may carry up to 63 pending bits into a new buffer after an overflow. A next code keeps all
  its bits if and only if they fit the 64-bit buffer together (`BitWriter.Writer.WriteBits`,
  `BitWriter.CodesKeptWhole`); beside 63 bits a code of two loses one (`BitWriter.CarriedBitsCrowdOut`).
- The documentation calls `qpl_execute_job` a submission followed by a wait. For the jobs that it
  sends through these calls this holds for all engine answers if and only if the request is refused, may not
  fall back, or goes to the host at once (`JobRuns.ExecuteIsAlwaysSubmitThenWait`); otherwise the host
  engine can run twice (`JobRuns.ExecuteIsSubmitThenWait`, `JobRuns.ExecuteHostRuns`,
  `JobRuns.ChecksumRunsHostTwice`).
- A stream of chunks on the auto path stays on one side as long as its level stays at the default;
  raising the level moves it to the host (`JobRuns.LevelChangeSplitsStream`, `JobRuns.SideOfLaterChunk`).
  If its first chunk is executed synchronously, no earlier job may have been left being processed
  (`JobRuns.ExecutedStreamStaysOnOneSide`).

The scan validator accepts 32-bit index outputs that end at the largest index, for which the store loop
reports an overflow; `ScanIndex.AcceptedScans` gives the exact condition. The comment on the division by
65535 excludes one argument; `SafeSize.DivIsWrongOnce` proves that it is the only one.

## Model

| member | source | states |
|---|---|---|
| Crc64.Reflect32 | tools/ref/ref_crc64.c:67-102 | the bit and byte reflections of a 32-bit word, in either order, together reverse its bits |
| Crc64.Reflect64 | tools/ref/ref_crc64.c:82-115 | the 64-bit bit-and-byte swap is the full bit reversal |
| Crc64.Reduce | tools/ref/ref_crc64.c:121-132 | n clockings of the register multiply the polynomial by x^n modulo x^64 + poly |
| Crc64.Clmul32x32 | tools/ref/ref_crc64.c:140-149 | the shift-and-xor loop is the carry-less product of the low 32 bits with the other factor |
| Crc64.ProductReduces | tools/ref/ref_crc64.c:140-164 | reducing a carry-less product held in two overlapping halves is combining multiples of the other factor by powers of x |
| Crc64.ClmulValue | tools/ref/ref_crc64.c:157-164 | the 96-bit product with the folding constant stands for the word times x^96 |
| Crc64.ProcDword | tools/ref/ref_crc64.c:172-180 | one folding step multiplies the register value by x^32 and adds the word at x^96 |
| Crc64.FinalReduce | tools/ref/ref_crc64.c:190-203 | the final loop clocks the register while the low word enters bit by bit |
| Crc64.FeedValue | tools/ref/ref_crc64.c:190-203 | once the low bits have entered they have been added where they belong, however many clockings follow |
| Crc64.NextWord | tools/ref/ref_crc64.c:247-285 | a load of up to four bytes is the next message bits, first bit at the top, missing bytes zero, for both bit orders |
| Crc64.InitialCrc | tools/ref/ref_crc64.c:234-242 | the doubling or-shifts set every bit from the lowest set bit of the polynomial up, or nothing without inversion |
| Crc64.FoldWords | tools/ref/ref_crc64.c:244-256 | after every folded word the register is the bit-serial state times x^32; five to eight bytes are left, or a short message is untouched |
| Crc64.AbsorbTail | tools/ref/ref_crc64.c:258-285 | the last one to eight bytes are added to the top of the register in message order |
| Crc64.FinishLong | tools/ref/ref_crc64.c:258-291 | with 32 to 64 bits to go, the final reduction ends in the bit-serial state of the whole message |
| Crc64.RefCrc64 | tools/ref/ref_crc64.c:207-296 | for every message, nonzero polynomial and flag setting the result is the bit-serial CRC; empty input and zero polynomial are the two errors |
| Crc64.NarrowPolynomial | tools/ref/ref_crc64.c:121-296 | a polynomial with t trailing zeros gives the (64-t)-bit CRC left-aligned, inversion being its all-ones start and final xor |
| Crc64.CrcLinear | tools/ref/ref_crc64.c:207-296 | without inversion the CRC of the xor of two equally long messages is the xor of their CRCs |
| Crc64.BigEndianMirrors | tools/ref/ref_crc64.c:207-296 | under the big-endian flag the CRC is the mirror of the CRC without it over the bytes with their bits reversed |
| Crc64.BigEndianIsReflected | tools/ref/ref_crc64.c:207-296 | under the big-endian flag the CRC is that of the register that shifts down, with the mirrored polynomial, the message low bit first, and ones in the width of the polynomial before and after when inverting |
| Crc64.CrcIsRemainder | tools/ref/ref_crc64.c:207-296 | without inversion the CRC, mirrored under the big-endian flag, is the remainder of the message polynomial times x^64 divided by x^64 + poly |
| Crc64.CrcIsOnlyRemainder | tools/ref/ref_crc64.c:207-296 | it is the only word that is such a remainder |
| Gf2.SerialIsRemainder | tools/ref/ref_crc64.c:190-203 | a shift register of any width holds the remainder of its start and the message, as polynomials, divided by the modulus |
| Gf2.RemainderIsUnique | tools/ref/ref_crc64.c:190-203 | quotient and remainder of that division are unique |
| Gf2.ReflectedIsMirrored | tools/ref/ref_crc64.c:286-296 | the register that shifts down is the mirror image of the one that shifts up |
| Gf2.SerialFold | tools/ref/ref_crc64.c:190-203 | taking message bits one at a time equals adding them all at the top and clocking |
| Gf2.CombinePower | tools/ref/ref_crc64.c:140-164 | combining the bits of a word with multiples of x^n gives the word times x^n |
| Crc32.ReverseBits32IsRev | tools/ref/ref_crc32.c:61-70 | the table-driven reversal reverses all 32 bits |
| Crc32.RefCrc32 | tools/ref/ref_crc32.c:74-86 | the byte loop is the bit-serial register over the low-bit-first stream, complemented and mirrored at the end |
| Crc32.TableStep | tools/ref/ref_crc32.c:74-86 | one table look-up of RFC 1952 is eight steps of the mirrored register |
| Crc32.CrcIsRfc1952 | tools/ref/ref_crc32.c:74-86 | the result is update_crc of section 8 of RFC 1952 with the mirrored polynomial, continued from the mirrored start |
| Crc32.CrcInPieces | tools/ref/ref_crc32.c:52-86 | the CRC of a concatenation is the CRC of the second part started from the reversed CRC of the first |
| Lz77.CopyBackRepeats | sources/c_api/compression_operations/own_deflate_job.c:129-141 | a length/distance pair over repeated bytes decodes to those bytes, also when it overlaps itself |
| Lz77.DecodedLength | sources/c_api/compression_operations/own_deflate_job.c:58-85 | a decodable token stream produces as many bytes as its literals and match lengths |
| Lz77.LengthSymbolIsRfc1951 | sources/core-sw/src/compression/deflate_histogram.c:25-42 | the computed length symbol is the row of the table in section 3.2.5 of RFC 1951 that holds the length |
| Lz77.DistanceSymbolIsRfc1951 | sources/core-sw/src/compression/deflate_histogram.c:44-79 | the computed distance symbol is the row of that section's distance table |
| Lz77.CountsAreOccurrences | sources/core-sw/src/compression/deflate_histogram.c:105-109 | each count is the number of tokens coded with the symbol: literals by their value, lengths and distances by their row of the tables, nothing under 256 |
| Matcher.RunIsUnique | sources/c_api/compression_operations/qpl_deflate_slow.c:197-211 | the maximal common run under the caps is one number |
| Matcher.CompareStrings | sources/c_api/compression_operations/qpl_deflate_slow.c:197-211 | the length is the maximal common prefix that stays below the bound and 258, zero unless the candidate lies before the position |
| Matcher.BestMatchIsLongest | sources/c_api/compression_operations/qpl_deflate_slow.c:111-195 | whatever the tables hold, the match is at most 4096 back over equal bytes inside the input and the first longest among the chain candidates tried; none is tried exactly when the head for the next four bytes is unset or more than 4096 back; otherwise at most the configured attempts and one, a quarter of them after a good first match, and fewer only at the end of the chain, out of the window or at 258 |
| Matcher.GetBestMatch | sources/c_api/compression_operations/qpl_deflate_slow.c:111-195 | the loop computes the best match as a function of the input and the table contents |
| Matcher.GetLazyBestMatch | sources/c_api/compression_operations/qpl_deflate_slow.c:79-108 | the loop computes the lazy match as a function of the input and the table contents |
| Matcher.LazyMatchIsFirstKept | sources/c_api/compression_operations/qpl_deflate_slow.c:79-108 | the answer is the best match at the first position whose best match is not given up, or at the last position before the bound; a match is given up when it is shorter than the one at the next byte and below the lazy limit |
| DeflateJob.Job.SwitchToNext | sources/c_api/compression_operations/own_deflate_job.c:25-28 | position and count of bytes read move together |
| DeflateJob.Job.HashTableUpdate | sources/core-sw/src/compression/deflate_hash_table.c:40-50 | the new index heads its chain and links to the old head; nothing else changes |
| DeflateJob.Job.ProcessLiterals | sources/c_api/compression_operations/own_deflate_job.c:87-127 | every byte up to the bound becomes one counted literal token and enters the tables, with fewer than four bytes hashed only at the end of the input |
| DeflateJob.Job.UpdateMissedLiterals | sources/c_api/compression_operations/own_deflate_job.c:30-45 | the position ends at the bound with every position passed entered in the tables, counters untouched |
| DeflateJob.Job.HistogramUpdateMatch | sources/core-sw/src/compression/deflate_histogram.c:105-109 | exactly the length and the distance symbol of the match are counted |
| DeflateJob.Job.ProcessMatch | sources/c_api/compression_operations/own_deflate_job.c:129-141 | the bytes before the match become literals, the match one token, and the position follows it; everything so far decodes |
| DeflateJob.Job.TakeRound | sources/c_api/compression_operations/own_deflate_job.c:67-79 | a round takes off the front of the run as a function exactly what that function says comes first |
| DeflateJob.Job.Perform | sources/c_api/compression_operations/own_deflate_job.c:58-85 | the tokens decode to the input and are cut in rounds: at each cut the lazy match for the tables with all earlier positions entered, if it has at least four bytes, behind the literals it skipped, else one literal, and literals within four bytes of the end; the final tables have every position entered, and every counter has grown by the number of tokens coded with its symbol |
| DeflateJob.DriveDecodes | sources/c_api/compression_operations/own_deflate_job.c:58-141 | for every input and any content of the tables, the tokens of the run decode to the input |
| DeflateJob.DriveInRounds | sources/c_api/compression_operations/own_deflate_job.c:58-85 | the run as a function is cut in such rounds from any position on |
| DeflateJob.MatchIsTaken | sources/c_api/compression_operations/own_deflate_job.c:67-79 | a match of at least four bytes found at a cut is among the tokens |
| DeflateJob.HeadIsNewest | sources/core-sw/src/compression/deflate_hash_table.c:40-50 | after entering a range, the head for a hash is the last position of the range with that hash, or the old head |
| DeflateJob.LinkIsFormerHead | sources/core-sw/src/compression/deflate_hash_table.c:40-50 | the link of a position not yet overwritten is the head its hash had before it; slots no position falls in keep their link |
| Packing.UnpackPacked | tools/ref/ref_convert.c:23-89 | packing elements and unpacking them is the identity in both bit orders |
| Packing.PackUnpacked | tools/ref/ref_store.c:231-322 | unpacking and packing keeps the payload bits and zeroes the padding |
| ColumnValues.ElementValue | tools/ref/ref_convert.c:23-89 | element i of a packed column is the number of the buffer divided by the power of two below the element, modulo 2^w, from the low end or from the high end |
| ColumnValues.StreamValue | tools/ref/ref_convert.c:23-89 | the bits of a buffer in reading order are the number of its bytes, low byte first, or high byte first and mirrored |
| BitCursor.ClearTailLow | tools/ref/ref_own_copy.c:48-52 | the bits behind a little-endian copy in its last byte are cleared, nothing else, and the end pointer is ceil(bits/8) |
| BitCursor.ClearTailHigh | tools/ref/ref_own_copy.c:181-186 | the same behind a big-endian copy |
| Copy.CopyNominal | tools/ref/ref_own_copy.c:20-458 | each of the four copies writes the packed form, in the destination bit order, of the elements it reads, zero-padded, and leaves the rest alone; with an offset that does not wrap they are the elements of the column from any start bit |
| Copy.ReadIsColumn | tools/ref/ref_own_copy.c:20-458 | within 2^32 bits the elements read are those of the column, in both source bit orders |
| Copy.ReadInNumbers | tools/ref/ref_own_copy.c:20-458 | element k ends at bit off + k*w + w - 1 modulo 2^32 of a big-endian source, and starts at bit off + k*w of a little-endian one |
| Copy.WrappedReadIsWrong | tools/ref/ref_own_copy.c:279-433 | beyond 2^32 bits of a big-endian source, wherever the wrapped offset stays inside the source, a column with only its last bit set is copied wrongly |
| Copy.ReadsEveryColumn | tools/ref/ref_own_copy.c:279-433 | a big-endian source is read inside its bounds and as the column it is, whatever its bits, if and only if the column ends within 2^32 bits |
| Copy.LastElementReadAsFirst | tools/ref/ref_own_copy.c:279-293 | the last of 2^27 + 1 elements of 32 bits is read as the first |
| Copy.CopyMasked | tools/ref/ref_own_copy.c:675-1395 | the output is the packed form of the selected elements, fails with DST_IS_SHORT exactly when popcount times width exceeds the room, and counts the room down exactly |
| Copy.ExpandMasked | tools/ref/ref_own_copy.c:1555-1825 | the output is the packed form of the elements spread over the mask with zeros between, fails exactly when the source has too few bits, and consumes ceil(popcount*width/8) bytes |
| Copy.ExpandMaskedBig | tools/ref/ref_own_copy.c:1967-2255 | the same output for a big-endian source; SRC_IS_SHORT exactly when the elements need more bytes than the given ones and one more; the byte count goes down by ceil(popcount*width/8) modulo 2^32 |
| Copy.ExpandsBehindTheSource | tools/ref/ref_own_copy.c:2004-2007 | two elements of eight bits are expanded from a source of one byte |
| Columns.OwnSelect | tools/ref/ref_select.c:285-299 | the output is the elements with nonzero mask, in order |
| Columns.OwnExpand | tools/ref/ref_expand.c:267-286 | the output is the elements spread over the mask; SRC_IS_SHORT exactly when there are fewer than the mask needs |
| Columns.ExpandOfSelect | tools/ref/ref_expand.c:267-286 | expanding what was selected restores the column with the unselected elements blanked |
| Columns.SelectOfExpand | tools/ref/ref_select.c:285-299 | selecting from what was expanded restores the elements consumed |
| Columns.PopcountIsCardinality | tools/ref/ref_select.c:285-299 | the population count is the number of set bits |
| Columns.SelectAt | tools/ref/ref_select.c:285-299 | a selected element comes behind those selected before it |
| Columns.ExpandAt | tools/ref/ref_expand.c:267-286 | a set place of an expansion holds the element numbered by the set places before it, a clear one zero |
| Store.StoreNominal | tools/ref/ref_store.c:231-322 | the output is the packed form of the low w bits of every value, zero-padded, in either bit order |
| Convert.ConvertTo32u | tools/ref/ref_convert.c:23-89 | the output is the unpacked values; the 64-bit buffer holds at least one element whenever one is taken |
| Convert.Refill | tools/ref/ref_convert.c:55-75 | loading stops only when no bits are missing or no byte fits, with the buffer holding exactly the next stream bits |
| RoundTrips.StoreThenConvert | tools/ref/ref_store.c:231-322 | storing and unpacking returns every value cut to the width, in both bit orders |
| RoundTrips.CutIsModulo | tools/ref/ref_store.c:231-322 | a value cut to the width is the value modulo 2^w |
| RoundTrips.ConvertThenStore | tools/ref/ref_convert.c:23-89 | unpacking and storing returns the payload bits with the padding zeroed |
| RoundTrips.CopyIsConvertThenStore | tools/ref/ref_own_copy.c:20-458 | from any start bit, a copy lays out the elements that unpacking to values and storing lays out, up to 2^32 bits for a big-endian source |
| RoundTrips.CopyAndConvert | tools/ref/ref_own_copy.c:20-458 | the direct copy and the unpacker followed by the packer write the same bytes |
| RoundTrips.CopyThereAndBack | tools/ref/ref_own_copy.c:144-316 | what a copy to the other bit order and back writes, also where the offset wraps |
| RoundTrips.ThereAndBackKeeps | tools/ref/ref_own_copy.c:144-316 | the round trip reads inside the buffers and keeps the payload bits of every column if and only if there are at most 2^32 of them |
| RoundTrips.PackedSelectRefines | tools/ref/ref_own_copy.c:675-1395 | the packed select, unpacked, is the element-level select of the unpacked source |
| RoundTrips.PackedExpandRefines | tools/ref/ref_own_copy.c:1555-2255 | the packed expand, unpacked, is the element-level expand of the unpacked source |
| RoundTrips.SelectThenExpand | tools/ref/ref_own_copy.c:675-1825 | packed select and then expand with the same mask gives the column with the unselected elements zeroed |
| RoundTrips.ExpandThenSelect | tools/ref/ref_own_copy.c:675-1825 | packed expand and then select with the same mask gives the consumed elements back, or SRC_IS_SHORT exactly when there were too few |
| Scan.CorrectParameterIsCut | tools/ref/ref_scan.c:349-351 | a parameter is cut to the element width |
| Scan.OwnCompare | tools/ref/ref_scan.c:223-270 | each result tells whether its value satisfies the predicate; only an unknown operation fails |
| Scan.ScanInNumbers | tools/ref/ref_scan.c:105-351 | with x the digit group of element i in the number of the source and a, b the parameters modulo 2^w, bit i of the output tells x < a, x <= a and so on, for each of the eight operations |
| Scan.Complements | tools/ref/ref_scan.c:223-270 | Ge, Gt, Ne and not-in-range are the complements of Lt, Le, Eq and in-range; in-range and Eq are conjunctions |
| Scan.BelowIsDownwardClosed | tools/ref/ref_scan.c:223-270 | what is at most a hit of Lt or Le is a hit, and zero is one unless an Lt parameter is zero |
| Scan.StoreBits | tools/ref/ref_scan.c:272-313 | the verdicts are stored bit by bit in the chosen bit order and nothing else changes; then DST_IS_SHORT is reported exactly when the number of bytes, in 32-bit arithmetic, exceeds the available output; otherwise the tail is cleared as the code does it and the end is that number |
| Scan.ScanPadding | tools/ref/ref_scan.c:297-313 | the output is the packed verdicts if and only if the leftover bits were zero, or the last byte does not hold exactly one verdict and there are fewer than 2^32-7 of them |
| Scan.OneVerdictKeepsPadding | tools/ref/ref_scan.c:297-313 | one verdict stored over a byte of ones leaves seven of them |
| Scan.ScanColumn | tools/ref/ref_scan.c:105-159 | the output stream is the verdicts on the unpacked column; SRC_IS_SHORT exactly when the source does not hold the column, then the operation error, then DST_IS_SHORT exactly when the bytes of the verdicts exceed the available output |
| Scan.QueryLaw | tools/ref/ref_scan.c:223-270 | the bits of a scan, used as a mask, select exactly the satisfying elements, whatever the padding |
| Scan.ScanThenSelect | tools/ref/ref_own_copy.c:675-1395 | a scan and then a masked copy yields the packed form of the satisfying elements in order, DST_IS_SHORT exactly when they do not fit |
| ScanIndex.StoreIndices | tools/ref/ref_own_scan.c:38-122 | for every first index, the loop succeeds if and only if no element overflows and size times matches fit; the output is then the list of the 32-bit indices of the matches; each error is reported at the first element that has it, an 8-bit or 16-bit overflow before and a 32-bit one after the room is compared |
| ScanIndex.IndicesAreTheHits | tools/ref/ref_own_scan.c:38-122 | while the 32-bit counter does not wrap, the listed indices are strictly increasing and exactly those of the matching elements |
| ScanIndex.ListSerialisesIndices | tools/ref/ref_own_scan.c:38-122 | the stored bytes are those indices one after the other |
| ScanIndex.IndexReadsBack | tools/ref/ref_own_scan.c:38-122 | what is stored of an index is the index modulo 2^8, 2^16 or 2^32, in both byte orders |
| ScanIndex.ListReadsBack | tools/ref/ref_own_scan.c:38-122 | group k of the stored bytes reads as the index of hit k, cut to the format |
| ScanIndex.IndexLimits | tools/ref/ref_own_scan.c:38-122 | hits above 255 or 65535 overflow 8-bit and 16-bit outputs, the index 2^32 - 1 overflows 32-bit ones, hit or not; accepted are scans that end within 2^8, 2^16 or 2^32 |
| ScanIndex.OneErrorFirst | tools/ref/ref_own_scan.c:38-122 | an overflow and a short destination are never both the first error |
| ScanIndex.AcceptedScans | sources/c_api/filter_operations/arguments_check.hpp:170-197 | an accepted scan overflows if and only if its format has 32 bits and its last index is 2^32-1 |
| Prle.GetFormatAndCount | tools/ref/include/ref_prle.h:32-99 | the header parser reads a variable-length integer of at most four bytes, low bit the format, the rest the count, and fails otherwise |
| Prle.CountElementsPrle | tools/ref/ref_count.c:15-115 | the status is that of the stream's parse, and the count is the number of its values modulo 2^32 |
| Prle.DecodePackedRun | tools/ref/ref_convert.c:91-188 | r groups consume r*w bytes and decode to the little-endian unpacking of those bytes; a short input stores the complete elements and fails |
| Prle.ConvertPrle | tools/ref/ref_convert.c:91-188 | for every width the decoder stores exactly the values of the stream's parse, up to an error, with the same status as the counting pass, and ends at the end of the input |
| PrleValues.HeaderInNumbers | tools/ref/include/ref_prle.h:32-99 | a header is a number of at most four bytes of seven bits; odd means packed groups, and half of it is the count |
| PrleValues.NoHeader | tools/ref/include/ref_prle.h:32-99 | without a byte below 128 among the next four bytes of the input there is no header |
| PrleValues.RepeatedRun | tools/ref/ref_convert.c:164-184 | for widths 1 to 32 a repeated run holds, count times, the number of the ceil(w/8) bytes behind its header, low byte first, or fails if they are missing |
| PrleValues.PackedRunInNumbers | tools/ref/ref_convert.c:91-163 | r packed groups are 8r digit groups of w bits of the number of the bytes that follow and take r*w of them; a short input yields the whole ones and fails |
| PrleValues.ZeroWidthRun | tools/ref/ref_convert.c:91-188 | at width zero packed groups are zeros and a repeated value is the byte that follows |
| PrleValues.EmptyRun | tools/ref/ref_convert.c:91-188 | a missing header or a count of zero is a format error without values |
| PrleValues.ParseInRuns | tools/ref/ref_convert.c:91-188 | the values of a stream are those of its runs from the second byte on, up to the end or the first bad run; a width above 32 and an empty stream are the other errors |
| PrleValues.RepeatedIsPacked | tools/ref/ref_convert.c:91-188 | 8r repetitions of an element with zero padding and r packed groups of it decode to the same values |
| Prle.AnnouncedValues | tools/ref/ref_count.c:15-115 | a well-formed stream holds as many values as its headers announce |
| Prle.CountIsExact | tools/ref/ref_count.c:15-115 | the count is the number of values if and only if the headers announce fewer than 2^32 |
| Prle.CountCanBeTooSmall | tools/ref/ref_count.c:15-115 | there is a well-formed stream of 166 bytes whose count is too small |
| Prle.ValuesFit | tools/ref/ref_convert.c:91-188 | from any position on, the decoded values have no bit beyond the width if and only if the padding of every repeated value is zero |
| Prle.DecodedValuesFit | tools/ref/ref_convert.c:91-188 | every value of a stream of width w is below 2^w if and only if the bits beyond the width are zero in every repeated value, which for width zero are the byte that follows |
| Prle.PaddingIsKept | tools/ref/ref_convert.c:164-184 | a repeated value of width three keeps bit seven of its byte |
| Prle.ZeroWidthReadsOn | tools/ref/ref_convert.c:164-184 | a run of width zero at the end of the input decodes to the byte behind it |
| Prle.CountThenConvert | tools/ref/ref_convert.c:91-188 | within that bound, counting and then decoding fills exactly the counted slots with the values of the stream |
| ExpandRle.GetCount | tools/ref/ref_expand_rle.c:229-243 | the size is the sum of the counts modulo 2^32, or the last running total |
| ExpandRle.OwnExpandRle | tools/ref/ref_expand_rle.c:433-462 | the output is every element repeated by its count; INVALID_COUNT exactly for a descending total, a count over 65535 or a full output |
| ExpandRle.RepeatAt | tools/ref/ref_expand_rle.c:433-462 | repetition j of element k stands behind all repetitions of the elements before it |
| ExpandRle.RunningTotals | tools/ref/ref_expand_rle.c:433-462 | running totals are valid exactly when they ascend by at most 65535, and then give the same output as the counts that are their steps |
| ExpandRle.TotalsFillExactly | tools/ref/ref_expand_rle.c:229-243 | the precomputed size of running totals is the output size if and only if they start at zero |
| ExpandRle.CountThenExpand | tools/ref/ref_expand_rle.c:433-462 | with the precomputed size as limit, exactly when the expansion succeeds and exactly when it fills the output |
| BitWriter.Writer.Init | sources/c_api/compression_operations/bit_writer.c:54-57 | the pending bits are dropped and the written ones stay |
| BitWriter.Writer.SetBuffer | sources/c_api/compression_operations/bit_writer.c:59-68 | writing starts over in the new buffer with the pending bits carried over; a buffer shorter than eight bytes is allowed when there are none |
| BitWriter.Writer.FlushBits | sources/c_api/compression_operations/bit_writer.c:22-34 | the whole bytes move to the output, at most seven bits stay, written plus pending bits are unchanged and the store stays inside the buffer |
| BitWriter.Writer.WriteBits | sources/c_api/compression_operations/bit_writer.c:87-104 | while available, written plus pending bits are the concatenation of all codes; overflow happens exactly at the end margin, after which nothing changes and the written bits stay a prefix of what was asked for; a last code beside carried bits keeps exactly the bits that fit |
| BitWriter.CodesKeptWhole | sources/c_api/compression_operations/bit_writer.c:87-91 | beside n pending bits every code of len bits is kept whole if and only if n + len is at most 64 |
| BitWriter.CarriedBitsCrowdOut | sources/c_api/compression_operations/bit_writer.c:59-104 | in a new eight-byte buffer beside 63 carried bits a code of two bits loses its top bit, so what is kept is not what was written |
| BitWriter.Writer.Flush | sources/c_api/compression_operations/bit_writer.c:70-85 | the output is the packed form of everything written, the last byte completed with zeros |
| BitWriter.WriteColumn | tools/ref/ref_store.c:284-316 | codes of one width and a flush give the same bytes as the little-endian store, and fit exactly when whole bytes stay below the margin |
| JobProtocol.Job.SubmitJob | sources/c_api/job_execution_api.cpp:113-188 | a submission is one step of the protocol, for all engine answers, and leaves the job on its path |
| JobProtocol.Job.CheckJob | sources/c_api/job_execution_api.cpp:190-227 | a check is one step of the protocol |
| JobProtocol.Job.WaitJob | sources/c_api/job_execution_api.cpp:229-269 | a wait is one step of the protocol, polling until the accelerator reports |
| JobProtocol.Job.ExecuteJob | sources/c_api/job_execution_api.cpp:271-372 | a synchronous call is one step of the protocol |
| JobRuns.PollingStep | sources/c_api/job_execution_api.cpp:190-269 | a check or wait answers at once, goes on waiting, falls back or stores the report, and adds accordingly to the completions and host runs |
| JobRuns.SubmitStep | sources/c_api/job_execution_api.cpp:113-188 | a submission runs the host engine once if the job ends up on the host, and otherwise leaves it to the accelerator |
| JobRuns.FallbackCause | sources/c_api/job.hpp:172-185 | a check or wait runs the host engine if and only if the accelerator just failed, not for a full output buffer, and the job is on the auto path and first or single |
| JobRuns.RunsAreSound | sources/c_api/job_execution_api.cpp:113-372 | no run of calls changes the path, and only on the auto path is the fallback flag ever set |
| JobRuns.AtMostOneHostRun | sources/c_api/job_execution_api.cpp:113-269 | after a submission, however many checks and waits follow, the host engine has run at most once |
| JobRuns.FirstResult | sources/c_api/job_execution_api.cpp:113-269 | after an OK submission, the first answer other than BEING_PROCESSED is OK if and only if exactly one engine completed the job; the one exception is high-level compression on the pool path |
| JobRuns.LaterResults | sources/c_api/job_execution_api.cpp:198-207 | later answers repeat the first and do nothing, except that a failed fallback on the auto path is reported OK from then on |
| JobRuns.WaitIsRepeatedCheck | sources/c_api/job_execution_api.cpp:248-255 | a wait does what checking until the end does |
| JobRuns.AcceleratorOnly | sources/c_api/job_execution_api.cpp:113-372 | no run of calls, synchronous ones included, uses the host engine on the hardware or pool path |
| JobRuns.StreamStaysOnOneSide | sources/c_api/job_execution_api.cpp:132-372 | from the submission of the first chunk of a stream on the auto path at the default level, with any submissions, executions, checks and waits for later chunks, the accelerator completes nothing or the host engine runs nothing |
| JobRuns.ExecutedStreamStaysOnOneSide | sources/c_api/job_execution_api.cpp:271-372 | a stream whose first chunk is executed synchronously stays on one side, whatever follows, if and only if no status of an earlier job in progress is left in place |
| JobRuns.SideOfLaterChunk | sources/c_api/job_execution_api.cpp:132-148 | a later chunk runs on the host if and only if the stream already does or its level has been raised |
| JobRuns.LevelChangeSplitsStream | sources/c_api/job_execution_api.cpp:137-143 | a run in which the accelerator completes one chunk and the host the next |
| JobRuns.ExecuteHostRuns | sources/c_api/job_execution_api.cpp:341-368 | the synchronous call runs the host engine at most twice, and twice if and only if it falls back inside its wait |
| JobRuns.ExecuteIsSubmitThenWait | sources/c_api/job_execution_api.cpp:271-372 | for the jobs that it submits and waits for, the synchronous call is the two calls if and only if the host engine does not run twice |
| JobRuns.ExecuteIsAlwaysSubmitThenWait | sources/c_api/job_execution_api.cpp:271-372 | the synchronous call is the two calls for all engine answers if and only if the request is refused, may not fall back or goes to the host at once |
| JobRuns.ChecksumRunsHostTwice | sources/c_api/job_execution_api.cpp:341-368 | a checksum whose poll fails is computed twice by the host engine |
| JobCases.SubmitOnAuto | sources/c_api/job_execution_api.cpp:113-188 | by operation and flags: which engine a submission on the auto path reaches, the whole new state and the answer |
| JobCases.SubmitElsewhere | sources/c_api/job_execution_api.cpp:113-188 | the same for refused requests and the software, hardware and pool paths |
| JobCases.FailedSubmission | sources/c_api/job.hpp:127-185 | a failed submission on the auto path is run once by the host engine for checksum, extract, select, expand and scan, whatever the flags, and for compression and decompression if and only if it is the first chunk |
| JobCases.PollSpelledOut | sources/c_api/job_execution_api.cpp:190-269 | by path, status, operation and flags: the whole new state and answer of a check and of a wait |
| JobCases.FailedPoll | sources/c_api/job.hpp:127-185 | the same as for a failed submission, for a check or wait that learns of the failure |
| JobCases.ExecuteOnAuto | sources/c_api/job_execution_api.cpp:271-372 | by operation, flags and device: what a synchronous call on the auto path does |
| JobCases.ExecuteElsewhere | sources/c_api/job_execution_api.cpp:271-372 | the same for refused requests and the other paths |
| JobCases.EndBitsNeedHost | sources/c_api/job.hpp:331-341 | a decompression that starts goes to the host at once if and only if it is Huffman-only, big-endian, ignores more than seven end bits and the accelerator is of the first generation |
| SafeSize.DivIsWrongOnce | sources/c_api/utils_api.cpp:33-40 | for every argument that arises, the shift division is the quotient by 65535 if and only if the argument is not 0xFFFFFFFF |
| SafeSize.SafeSizeIsExact | sources/c_api/utils_api.cpp:24-66 | the size is the stored-block length plus 34 rounded up to even, always even, and 0 exactly for sources over 4294639600 bytes, which are those for which it does not fit 32 bits |
| SafeSize.StoredLengthClosed | sources/c_api/utils_api.cpp:43-54 | stored blocks take five bytes for each of max(1, ceil(size/65535)) blocks |
| SafeSize.SafeSizeGrows | sources/c_api/utils_api.cpp:24-66 | nonzero safe sizes are monotone |
| SafeSize.ChunksCoverTheWhole | sources/c_api/utils_api.cpp:24-66 | however a source is cut, the safe sizes of the chunks together hold the stored form of the whole and its safe size |

## Left out

- The 256-entry bit-reversal tables: a byte reversal is modelled as reversing the eight bits.
- Null pointers, operation codes outside the enumeration, allocation failures and the other argument checks that only reject.
- Copy output formats other than the nominal one.
- `ref_store_val`, `ref_extract.c` and `ref_own_min_max_sum.c`: they would add easy members, or do not keep neighbouring bits.
- Unpacking from a start bit other than zero: every caller passes zero.
- The score-function build of the match search and the medium-level and vectorised compressors.
- The Huffman coding stage, block headers, and decompression.
- Dictionary handling, job layout, the RDMA server and the CXL interface.
- The getters of the bit writer, and machines that do not store 64-bit words low byte first.
- Copy.CopyMasked: one byte behind the mask must be readable, as the code loads it eagerly; the destination after a failure is not described.
- Copy.ExpandMasked: the same byte behind the mask must be readable; the destination after a failure is not described.
- Copy.ExpandMaskedBig: the byte that the bounds comparison allows behind the source must be readable, and so must the one behind the mask.
- DeflateJob.Job.Perform: the symbol counters are unbounded numbers.
- Copy.CopyNominal: a wrapped offset of a big-endian source must not lead in front of the source.
- BitWriter.Writer.WriteBits: a code that does not fit and is followed by a flush shifts by the width of the buffer, which the language leaves undefined; it is not modelled.
- BitWriter.Writer.SetBuffer: pending bits need a buffer of at least eight bytes, since flushing them stores eight; a count above the width of the buffer is not carried over.
- Prle.ConvertPrle: the destination must have room for all values, and one byte behind the input must be readable.
- Scan.StoreBits: the destination memory must hold the verdicts whatever room is announced, since they are written before the room is compared.
- JobProtocol.Job.SubmitJob: what the engines do to the data is not modelled, only that they run and how they answer; the host engine is taken to answer only when it is done.
- JobProtocol.Job.WaitJob: the accelerator is taken to report after finitely many polls.
