# sceadan feature extraction and decision, in Dafny

This project models the core of sceadan, a file-type classifier for blocks of
data. A block is consumed in chunks by a streaming accumulator
(`vectors_update`). The accumulator counts every byte value (the unigram
table `ucv`), the non-overlapping byte pairs aligned to even stream positions
(the bigram table `bcv`), and a handful of running totals:
- zero bits;
- byte sum and sum of squares;
- contiguity;
- the three ASCII buckets;
- the current run and the longest run.

The finalizer (`vectors_finalize`) turns these into normalized features. The
decision (`predict_liblin`) then runs a pre-filter: dump mode, then a
randomness cut-off, then a scan for a unigram or bigram that fills more than
half of the block. If nothing fires, the features are laid out as a feature
vector (`do_predict`) and handed to a trained linear classifier. A static
table maps type codes to names (`sceadan_types`, `sceadan_name_for_type`).

## The files

| file | models |
|---|---|
| `streams.dfy` | Functions of the byte stream. Each says what an accumulator field must hold after the bytes seen so far (contiguity is a function of the chunks instead). Also the lemmas on what those totals mean. |
| `features.dfy` | `Ratio`: an exact numerator over a denominator, standing for each quotient the finalizer computes. Also the finalized feature set. |
| `accumulator.dfy` | The class `Vectors`, which is the accumulator state. It has the arrays `ucv` and `bcv` and one field per running total. `Update` is `vectors_update`: it walks the chunk byte by byte in a loop, through `Scan` and `Step`. `Finalize` is the integer and quotient part of `vectors_finalize`. |
| `wrappers.dfy` | `Option`, shared by the table lookup and the decision rules. |
| `registry.dfy` | The type table and the lookup loop, together with the table as written and the corrected table. Also `TypeNamed`, the inverse of the name column, which shows the names are distinct. |
| `decision.dfy` | The feature-vector layout and the method `DoPredict`, which fills an array the way `do_predict` does. Also `PredictLiblin`, the pre-filter loop with its early returns. |
| `classify.dfy` | `sceadan_classify_buf` and `sceadan_classify_file`, plus what the pre-filter decides, stated directly on the bytes. Also a classification that refuses an empty input and reports a failed read, beside the code as written. |

`Vectors.Valid()` is the invariant of the accumulator:
- every table cell and every total equals a function of the concatenation of the chunks consumed so far;
- `contiguity` equals `Contiguity(Chunks)`, which depends on the chunks themselves.

Because the invariant ties the two tables and every total except contiguity
to the concatenated stream alone, the same bytes give the same values
however they are chunked. This is also why `ClassifyFile` yields the
classification of the concatenated stream whatever the read sizes are.

The type codes come from a header that is not part of this model, so they
are a parameter `code: FileType -> int`. The randomness test reads the
normalized unigram entropy, which needs `log2`. The model takes it as a
parameter `entropy`, applied to the unigram frequencies. The trained model is
a value `Model(nrFeature, bias, predict)` whose `predict` is an arbitrary
function.

Frequencies are `Ratio`s. The source's test `avg > .5` is `2 * num > den` on
them. This is exact for a positive denominator (`ExceedsHalfMeansAboveHalf`).
For a zero denominator it also matches what the source's double division
gives:
- 0 / 0 is a NaN, which compares false;
- n / 0 with n > 0 is an infinity, which compares true.

### Where the code and its documented behaviour differ

The model follows the code in each case.

- **Contiguity depends on chunking.**
  - When a call starts after an odd number of bytes, the distance from the carried last byte to the first byte counts. The chunk's own first pair is then not counted.
  - When a call starts after an even number of bytes, no pair across the boundary counts.
  - `ContiguityDependsOnChunking` shows that 0, 5, 9 gives 9 in one call but 5 when split after the first byte.
  - See "## Findings".
  - The bigram table and the other totals do not depend on chunking.
- **The empty block is not rejected.**
  - Finalizing zero bytes gives zero denominators throughout.
  - The pre-filter then finds no hit, so the classifier runs (`ClassifierNeedsFourBytes`).
  - See "## Findings".
- **The constant scan is interleaved.**
  - The unigram of byte i is tested, then the bigram row of byte i, then byte i + 1.
  - So a majority pair whose first byte is smaller beats a majority byte (`InterleavedScan`).
- **An unknown code makes the lookup overrun the table.** See "## Findings".
- **Read errors end the input.** `rd <= 0` stops reading, so a failed read is treated as end of file. See "## Findings".

## Model

| member | source | states |
|---|---|---|
| Streams.Max | src/sceadan.c:321-323 | The result is at least each argument and equals one of them. |
| Streams.Distance | src/sceadan.c:345-349 | `abs (next - prev)` of two bytes lies in 0..255 and is zero exactly when the bytes are equal. |
| Streams.PopCount | src/sceadan.c:356 | The popcount of a byte is at most 8, so each byte adds a natural number of zero bits. |
| Streams.CountIsMultiplicity | src/sceadan.c:333-334 | The unigram count of v is the multiplicity of v in the bytes seen. |
| Streams.UnigramTotal | src/sceadan.c:333-334 | The 256 unigram counts sum to the number of bytes seen (`uni_sz`). |
| Streams.PairCountIsAligned | src/sceadan.c:329-350 | The bigram count of (p, q) is the number of positions 2k holding p with q at 2k+1. |
| Streams.BigramTotal | src/sceadan.c:340-350 | The 65536 bigram counts sum to `uni_sz / 2`, rounded down. |
| Streams.ZeroBitsBound | src/sceadan.c:354-356 | The zero-bit total is at most `8 * uni_sz`. |
| Streams.BucketsPartition | src/sceadan.c:373-382 | Every byte lands in exactly one ASCII bucket, so the three bucket totals sum to `uni_sz`. |
| Streams.TrailingRunIsMaximal | src/sceadan.c:364-370 | `last_cnt` is the length of a run of equal bytes ending the stream, and no longer such run exists. |
| Streams.LongestRunIsLongest | src/sceadan.c:371 | The streak total bounds every run of the stream and is attained by one. |
| Streams.StreakBounds | src/sceadan.c:364-371 | For a nonempty stream, 1 <= streak <= `uni_sz`. |
| Streams.SingleChunkContiguity | src/sceadan.c:340-349 | One call from the zeroed state gives the sum of the distances of all adjacent pairs. |
| Streams.TwoChunkContiguity | src/sceadan.c:340-349 | With two calls, the total misses one distance of the concatenation: the seam when the first chunk has even length, the second chunk's first pair when it has odd length. With an odd first chunk and a one-byte second chunk nothing is missed. |
| Streams.ContiguityDependsOnChunking | src/sceadan.c:340-349 | The same bytes, chunked differently, give different contiguity totals. |
| Streams.PairwiseContiguityIsChunkInvariant | src/sceadan.c:340-349 | Counted over every adjacent pair, the seams included, contiguity is the sum of the distances of all adjacent pairs of the whole stream, whatever the chunking. |
| Streams.ConstantStream | src/sceadan.c:330-371 | n copies of b give n counts of b and none of anything else. They give n/2 counts of (b, b) and no other pair, and a trailing run and streak of n. |
| Features.ExceedsHalfMeansAboveHalf | src/sceadan.c:583-595 | The integer test `2 * num > den` is the comparison of the quotient with one half, and 0 / 0 never passes it. |
| Accumulator.Vectors.constructor | src/sceadan.c:728-729 | The zeroed state satisfies the accumulator invariant for the empty stream and no chunks. |
| Accumulator.Vectors.Update | src/sceadan.c:327-385 | The invariant is kept and the chunk is appended to the consumed stream. `uni_sz` grows by the chunk length, and contiguity grows by the step that depends on the parity of `uni_sz` and the carried last byte. |
| Accumulator.Vectors.Scan | src/sceadan.c:329-383 | The byte loop extends every table and total from the stream s0 to s0 + buf, and adds the call's contiguity step. |
| Accumulator.Vectors.Step | src/sceadan.c:330-383 | One loop pass extends the unigram table and the totals by one byte. It extends the pair table as far as the pairs read so far, and adds that byte's share of contiguity. |
| Accumulator.Vectors.PairStep | src/sceadan.c:336-352 | The pair part of one pass: the straddling pair at the first byte when the stream so far is odd, or otherwise the pair this byte starts, counted only at an even stream position. |
| Accumulator.Vectors.CountPair | src/sceadan.c:344-350 | Incrementing cell (prev, next) turns a table for one stream into the table for a stream with that pair added. |
| Accumulator.Vectors.CountByte | src/sceadan.c:333-334 | Incrementing `ucv[unigram]` turns the unigram table of s into that of s + [unigram]. |
| Accumulator.Vectors.Tally | src/sceadan.c:354-382 | The zero-bit, sum, square, run, streak and bucket updates turn the totals of s into those of s + [unigram]. |
| Accumulator.BigramStep | src/sceadan.c:340-350 | A step raises one cell (the straddling pair, or a pair at an even position) and otherwise leaves the table as it is. |
| Accumulator.Vectors.Finalize | src/sceadan.c:390-466 | Each quotient as an exact ratio: unigram frequencies over `uni_sz` and bigram frequencies over `uni_sz / 2`; hamming weight over `8 * uni_sz`; mean byte value and contiguity over `256 * uni_sz`; streak and bucket fractions over `uni_sz`. Also: hamming weight and streak never exceed their denominators, a nonempty streak is at least 1, and the buckets add up to the denominator. |
| Registry.Position | src/sceadan.c:248-309 | Every file type has a typed row. |
| Registry.NamesIdentify | src/sceadan.c:250-307 | Each type's name leads back to that type, so no two types share a name. |
| Registry.TypedNamesDistinct | src/sceadan.c:249-308 | The 58 typed rows carry pairwise distinct names. None of them is "unclassified", the name of code 0, or the empty name of the last row. |
| Registry.PositionOfTypeAt | src/sceadan.c:250-307 | Each type is listed once. |
| Registry.Rows | src/sceadan.c:248-309 | Row layout of both tables: "unclassified" first, then the 58 typed rows; the last row is `{0,""}` as written and a null name when corrected. |
| Registry.ScanCases | src/sceadan.c:313-319 | The lookup returns the name of the first row from the start that has the code, or null at a first row with a null name. It walks off the table exactly when every row has a name and another code. |
| Registry.NameForType | src/sceadan.c:313-319 | The loop with its early return computes that scan. |
| Registry.ZeroIsUnclassified | src/sceadan.c:248-317 | Code 0 gives "unclassified" in either table. |
| Registry.NameRoundTrip | src/sceadan.c:248-319 | With distinct nonzero codes, looking up a type's code gives the type's name, in either table. |
| Registry.FoundIsListed | src/sceadan.c:313-317 | A found name is "unclassified" for code 0 or the name of a type with that code. |
| Registry.UnknownCodeNotFound | src/sceadan.c:313-319 | Corrected table: a code no row carries gives null. |
| Registry.TableNeverOverruns | src/sceadan.c:313-319 | Corrected table: the scan never leaves the table. |
| Registry.AsWrittenUnknownCodeOverruns | src/sceadan.c:308-319 | Table as written: a code no row carries takes the scan past the last row. |
| Decision.FeatureVectorLayout | src/sceadan.c:470-502 | Position k holds index k+1 and unigram frequency k, and position 256+256p+q holds index 257+256p+q and bigram (p, q). The bias node with index `nr_feature+1` sits at 65792 when bias >= 0, the last node has index -1, and the vector is shorter than `n_bigram + n_unigram + 3`. |
| Decision.IndicesAscend | src/sceadan.c:483-501 | With no bias node, or a bias index past the bigrams, the indices before the terminator are positive and strictly ascending. |
| Decision.DoPredict | src/sceadan.c:470-504 | The filled buffer begins with the feature vector, and the result is the classifier applied to it. |
| Decision.FirstInRow | src/sceadan.c:590-599 | The first column of a bigram row with frequency above one half; none exactly when the whole row passes. |
| Decision.ScanFirstMatch | src/sceadan.c:581-600 | The scan stops at the first frequency above one half, in the order row unigram then row bigrams, row by row. It finds nothing exactly when every row is clean. |
| Decision.PredictLiblin | src/sceadan.c:570-606 | Dump gives 0; otherwise entropy above .995 gives RAND. Otherwise the scan's first hit gives UCV_CONST or BCV_CONST, and only when nothing fires is the classifier's answer on the feature vector returned. |
| Decision.Predict | src/sceadan.c:602-606 | A buffer of `max_nr_attr` nodes is filled by DoPredict and the classifier's answer on the feature vector is returned. |
| Classifier.ClassifyBuf | src/sceadan.c:726-733 | The result is the decision on the features of the buffer's bytes. |
| Classifier.FinalizeAndPredict | src/sceadan.c:731-732 | Finalizing any accumulated stream and running the pre-filter and classifier gives the classification of that stream. |
| Classifier.ReadUntilEof | src/sceadan.c:742-747 | The chunks consumed are the leading nonempty read results, up to the first empty one. |
| Classifier.DataReads | src/sceadan.c:742-747 | The leading reads that deliver bytes: every counted read delivers some, and the next read, if any, does not. |
| Classifier.ReceivedConsumed | src/sceadan.c:742-747 | The read loop consumes exactly the chunks of the leading reads that deliver bytes. |
| Classifier.ReadFailureEndsInput | src/sceadan.c:742-747 | A failed read ends the input exactly as the end of the file would, so the file is classified from the bytes read before the failure. |
| Classifier.ClassifyFile | src/sceadan.c:735-751 | A failed open or close gives -1. Otherwise the result is the classification of the concatenation of the leading nonempty reads, whatever their sizes. |
| Classifier.FrequenciesOfStream | src/sceadan.c:407-421 | A unigram frequency is above one half exactly when that byte fills more than half the stream. A bigram frequency is above one half exactly when that pair fills more than half of the `uni_sz / 2` pairs. |
| Classifier.MajoritiesAreUnique | src/sceadan.c:581-600 | At most one byte and at most one pair can pass the constant tests. |
| Classifier.DumpWins | src/sceadan.c:572-575 | In dump mode every block gives 0. |
| Classifier.RandomWins | src/sceadan.c:577-579 | Outside dump mode, entropy above .995 gives RAND whatever the counts. |
| Classifier.PreFilter | src/sceadan.c:581-606 | Below the cut-off there are three cases, each an if-and-only-if. UCV_CONST: some byte has a majority and no pair starting with a smaller byte does. BCV_CONST: some pair has a majority and no byte up to its first byte does. The classifier runs: neither happens. |
| Classifier.InterleavedScan | src/sceadan.c:581-600 | For x < y, the block x y x y x y y y gives BCV_CONST although y alone fills more than half of it. |
| Classifier.ConstantIsUnigramConstant | src/sceadan.c:581-589 | A nonempty block of one repeated byte gives UCV_CONST below the cut-off. |
| Classifier.CheckedRefusesEmptyInput | src/sceadan.c:726-733 | Corrected classification: the empty stream is refused and no other is; a nonempty stream gets the type code the code as written returns. |
| Classifier.CheckedFileReportsReadFailure | src/sceadan.c:742-747 | Corrected classification: a read that fails before the end of the file gives a read-failure refusal, whatever was read before and whatever close does. |
| Classifier.CheckedFileAgrees | src/sceadan.c:735-751 | With no failed read, the corrected file classification agrees with ClassifyFile as written, except that a file with no bytes is refused. |
| Classifier.ClassifierNeedsFourBytes | src/sceadan.c:581-606 | Blocks of one to three bytes never reach the classifier, and the empty block does. |

## Left out

- Floating-point features: entropy (`log2`), bigram entropy, standard deviation (`sqrt`), skewness, kurtosis, average absolute deviation and the `isinf` asserts of `vectors_finalize` (src/sceadan.c:403-460). Item entropy is an input to the decision instead.
- Accumulator.Vectors.Finalize: returns the quotients as a value instead of writing the `avg` fields of the tables in place. It does not state the features listed above.
- Accumulator.Vectors.Finalize: the source's double quotients are exact `Ratio`s. The `> .5` comparison agrees with them for denominators below 2^53; rounding is not modelled.
- Running totals are unbounded naturals: 64-bit `sum_t` overflow is not modelled.
- Accumulator.Vectors.Scan: the loop counter is unbounded. In the source it is an `int` compared with the `size_t` length (src/sceadan.c:330, 346). A single chunk of 2^31 bytes or more overflows it, which is undefined behaviour in C. If it wraps, the loop stops early, while src/sceadan.c:384 still adds the whole length to `uni_sz`. The model covers chunks of any length as if the counter did not overflow.
- Accumulator.Vectors.Update: inherits the unbounded counter of Vectors.Scan. Classifier.ClassifyBuf passes the whole buffer as one chunk (src/sceadan.c:730), so it inherits it too.
- Streams.SquareSum: exact, while src/sceadan.c:362 adds the squares in a `double`. The two agree only while the total stays below 2^53.
- The trained model: `load_model`, `predict` and `get_nr_feature` of the linear classifier library are the fields of a `Model` value.
- `dump_vectors_as_json` and `sceadan_model_dump`: output formatting and code generation. Dump mode is modelled only as returning 0.
- `sceadan_open`, `sceadan_close` and the global `model_`: allocation and a process-wide singleton.
- Classifier.ClassifyFile: `open`, `read` and `close` are the parameters `openOk`, `results` and `closeOk`. The `BUFSIZ` read size is not modelled, because any chunking gives the same result.
- Decision.DoPredict: the source leaves the terminator node's value unwritten; the model writes `Unset` there.
- Registry.NameRoundTrip: requires the type codes to be distinct and nonzero, because the header that assigns them is not part of this model.
- `src/sceadan_processblk.h`: declarations and a legacy feature layout, with no executable logic.

## Findings

| source | as written | input that shows it | evidently intended | confidence | as-written member | corrected member |
|---|---|---|---|---|---|---|
| src/sceadan.c:340-349 | Contiguity counts the pair across a call boundary only when the bytes seen before the call are odd in number, and then skips the call's own first pair. | The bytes 0, 5, 9 give 9 in one call and 5 when fed as 0 then 5, 9. | Every adjacent pair counts, the seams included, so the total does not depend on how the stream is chunked. | not executed; medium | Streams.ContiguityDependsOnChunking | Streams.PairwiseContiguityIsChunkInvariant |
| src/sceadan.c:726-733 | The buffer is finalized and classified whatever its length; a zero-length buffer is not rejected. | The empty buffer: every frequency is 0 / 0, the pre-filter finds no hit, and the trained classifier's answer is returned as a type code. | An empty input is refused with an error, never a type code. | not executed; medium | Classifier.ClassifierNeedsFourBytes | Classifier.CheckedRefusesEmptyInput |
| src/sceadan.c:742-747 | `rd <= 0` ends the read loop, so a failed read (`rd < 0`) is treated as the end of the file. | A file whose second read fails: it is classified from the first chunk and a type code is returned. | A failed read aborts the classification with an error distinct from any type code. | not executed; medium | Classifier.ReadFailureEndsInput | Classifier.CheckedFileReportsReadFailure |
| src/sceadan.c:308-318 | The last row is `{0,""}`, a non-null empty name, while the loop stops only at a null name. | Any nonzero code that no row carries: the loop reads past the last row. | The last row ends the scan and the lookup returns null. | not executed | Registry.AsWrittenUnknownCodeOverruns | Registry.UnknownCodeNotFound |
