# UPMEM DGA-domain classifier: a Dafny model

The programs under `Tests/domain` classify domain names as algorithmically
generated (DGA, "malicious") or benign on an UPMEM processing-in-memory DPU.

The host side does the following:
- sends the DPU a character vocabulary, the names and 1 814 336 bytes of model weights;
- cuts every transfer into 8-byte-aligned chunks of at most 2048 bytes;
- reads back one `Example` record per tasklet and reports a verdict.

On the DPU side, each tasklet does the following:
- reads its record (in `dga1.c` through a misplaced MRAM cast, see Findings);
- maps the name to character ids through the vocabulary;
- looks the ids up in an embedding table;
- sums the embeddings through two "bidirectional LSTM" accumulation layers, which yield five times the column sums;
- scores two classes with a dense layer, squashed by a rational `tanh` approximation;
- picks the label with a softmax built on a 9-term Taylor `exp`;
- writes the record back.

`dt1good.c` is a smaller gated variant. Its `domain_host.c` host builds a 256-entry float vocabulary.

The model is written over mathematical integers, reals and sequences. Each module follows one part of the programs:

| module | file | what it covers |
|---|---|---|
| `Wrappers` | wrappers.dfy | `Option`, `Result` and `Outcome` |
| `Align` | align.dfy | the four rounding spellings the hosts use and the two round-down spellings, and that they agree |
| `Layout` | layout.dfy | C struct layout (offsets, padding, `aligned(8)`) of every `Example` variant |
| `Transfer` | transfer.dfy | `check_alignment`, the chunked upload loops, the 8-byte step loops of `dga.c` / `dgaa1.c`, the raw loops of `dga1.c` and `transfer_data` of `dga_host4.c` |
| `Domains` | domains.dfy | how the names reach MRAM: the slot loop (`aligned_len` per name), the packed buffer, the `sizeof(char **)` loop bound and the readback |
| `Vocabulary` | vocabulary.dfy | `preprocess_domain` (signed `char` indices, `strlen`, zero fill) and the `init_vocab` / `generate_char_ids` table of `domain_host.c` |
| `Activation` | activation.dfy | `tanh_approx` and `exp_approx` |
| `Kernel` | kernel.dfy | `run_inference`: the embedding, the accumulation (closed form 5·S), the dense layer at `100 + 100c + j`, the softmax label and the allocation-failure path |
| `Gated` | gated.dfy | `dt1good.c`'s task (two mixing layers, the 0.8 gate, the sum) and its host's inputs |
| `Records` | records.dfy | byte-level encoding of `int32_t` and `char` fields, the `dtest2.c` write/read round trip, and the `dtest_host1.c` host record |
| `Coordinator` | coordinator.dfy | tasklet stride and ownership, `dga1.c`'s buffer indexing, and the hosts' result reporting |

## Model

| member | source | states |
|---|---|---|
| Align.MaskRoundUp | Tests/domain/dtest2.c:44 | `(x + 7) & ~7` is the least multiple of 8 that is at least x |
| Align.PadRoundUp | Tests/domain/dtest_host.c:73-75 | `if (x % 8) x += 8 - x % 8` is the least multiple of 8 that is at least x |
| Align.NextMultipleRoundUp | Tests/domain/dga_host2.c:120-122 | `((x / 8) + 1) * 8` under the `x % 8 != 0` guard is the least multiple of 8 that is at least x |
| Align.SubRoundDown | Tests/domain/dtest_host.c:53-55 | `c -= c % 8` is the greatest multiple of 8 that is at most c |
| Align.DivRoundDown | Tests/domain/dga_host2.c:43-45 | `(c / 8) * 8` is the greatest multiple of 8 that is at most c |
| Align.RoundUpFormsAgree | Tests/domain/dga_host2.c:120-122 | the three round-up spellings give the same value for every size |
| Align.RoundDownFormsAgree | Tests/domain/dga_host2.c:43-45 | the two round-down spellings give the same value for every size |
| Align.RoundUpIdempotent | Tests/domain/dtest_host.c:80-82 | rounding an already rounded size changes nothing, and a size is unchanged by rounding iff it is a multiple of 8 |
| Align.DomainReadbackSize | Tests/domain/dtest_host2.c:44 | the readback size for a 164-byte name field is 168, within 8 bytes above it |
| Layout.OffsetsWellPlaced | Tests/domain/dt2.c:23-31 | every field starts at a multiple of its alignment, fields do not overlap, and the struct ends after its last field |
| Layout.Aligned8SizeIsMultiple | Tests/domain/dgaa1.c:19-25 | an `aligned(8)` struct has a size that is a multiple of 8 and less than 8 bytes above its last field's end |
| Layout.UnalignedExampleSizes | Tests/domain/dga1.c:31-37 | the records declared without `aligned(8)` are 668 (`dga1.c`) and 684 (`dga.c`) bytes, neither a multiple of 8, despite the padding comments |
| Layout.AlignedExampleSizes | Tests/domain/dgaa1.c:19-25 | the `aligned(8)` records are 688, 856, 352, 192, 152 and 632 bytes |
| Layout.Dt2Offsets | Tests/domain/dt2.c:23-31 | `dt2.c`'s fields sit at 0, 4, 8, 172, 176, 832 and 836, which matches the offsets its comments give for `domain_name`, `char_ids` and `label` |
| Layout.Host1Offsets | Tests/domain/dtest_host1.c:23-31 | with 64-entry arrays the same declaration puts `char_ids` at 76 and `label` at 332, not at the 176 and 832 its copied comments claim |
| Transfer.CheckAlignment | Tests/domain/dtest_host1.c:88-93 | the check passes iff offset and size are both multiples of 8, and it otherwise reports exactly that pair |
| Transfer.NextChunkSize | Tests/domain/dtest_host1.c:103-106 | the chunk is aligned, within the cap and within the remainder, and it is 0 exactly when fewer than 8 bytes remain (or the cap is below 8) |
| Transfer.AlignedChunksTile | Tests/domain/dtest_host1.c:162-178 | for an aligned total the loop ends, its chunks tile [offset, total) in order, and each chunk is legal |
| Transfer.UnalignedChunksStall | Tests/domain/dtest_host.c:50-59 | for a total that is not a multiple of 8 the loop stops making progress at the last multiple of 8 below the total |
| Transfer.ChunksSucceedIffAligned | Tests/domain/dtest_host1.c:96-113 | the chunk loop completes iff the total is a multiple of 8 |
| Transfer.ChunkCount | Tests/domain/dtest_host1.c:162-178 | an aligned remainder takes ceil(remainder / cap) chunks, chunk i starts at `offset + i * cap`, and every chunk but the last is a full cap |
| Transfer.ModelUploadChunks | Tests/domain/dtest_host1.c:162-178 | the model upload is 885 chunks of 2048 bytes followed by one of 1856 bytes at 1 812 480 |
| Transfer.VocabularyUploads | Tests/domain/dtest_host.c:45-62 | the vocabulary tables of 64, 164, 130 and 32 entries each go up in a single chunk |
| Transfer.Host2NameCopyUnaligned | Tests/domain/dtest_host2.c:192-195 | the single 164-byte `dpu_copy_to` of the name fails the 8-byte alignment rule, and the chunk loop would not complete it |
| Transfer.Host2NameCopyPadded | Tests/domain/dtest_host2.c:192-195 | the name padded to 168 bytes passes the rule, goes as one chunk, and lands in MRAM whole without touching the bytes after it |
| Transfer.UploadChunks | Tests/domain/dtest_host1.c:162-178 | the loop method issues the chunk sequence of the recursive definition, which tiles an aligned total with legal chunks and stalls on an unaligned one |
| Transfer.CopyTilingDelivers | Tests/domain/dtest_host1.c:100-111 | copying a tiling of [start, end) makes the destination equal to the source there and leaves it unchanged outside |
| Transfer.UploadDeliversPayload | Tests/domain/dtest_host1.c:162-178 | after the upload, MRAM holds the whole payload, every chunk lies inside it, and nothing beyond it is written |
| Transfer.CheckNeverFails | Tests/domain/dtest_host1.c:107 | inside the loop, starting from an aligned offset, `check_alignment` never fires: the only failure is a stall |
| Transfer.TransferDataIsChunkLoop | Tests/domain/dga_host4.c:34-67 | from an aligned offset, `transfer_data` issues the same chunks as the plain chunk loop |
| Transfer.RealignmentSkipsBytes | Tests/domain/dga_host4.c:46-56 | from an unaligned offset, `transfer_data` issues the same chunks as from the next multiple of 8, so the bytes in between are never sent |
| Transfer.RawChunksTile | Tests/domain/dga1.c:309-313 | the unrounded loop tiles [offset, total) for any total |
| Transfer.RawChunksLegal | Tests/domain/dga1.c:309-313 | the unrounded loop's chunks are all legal iff the total is a multiple of 8 |
| Transfer.Dga1RawCopies | Tests/domain/dga1.c:308-313 | the model and vocabulary copies are legal, but the 668-byte record goes as one illegal chunk |
| Transfer.Dga1HelpersStall | Tests/domain/dga1.c:266-290 | the rounding helpers stall on the 668-byte record after 664 bytes |
| Transfer.StepChunksCover | Tests/domain/dga.c:124-126 | the 8-byte step loop copies exactly [0, size rounded up to 8) in legal 8-byte units |
| Transfer.StepCopyOverlapsNext | Tests/domain/dga.c:139-141 | the step loop writes past the record iff its size is not a multiple of 8, and by at most 7 bytes |
| Transfer.DgaStepLoopOverrun | Tests/domain/dga.c:139-141 | `dga.c`'s loop writes [0, 688) for a 684-byte record (4 bytes into the next one), and odd records start unaligned |
| Transfer.DgaaStepLoopExact | Tests/domain/dgaa1.c:123-125 | `dgaa1.c`'s loop writes exactly its 688-byte record in legal units, and every record starts aligned |
| Records.StepLoopRecordSizes | Tests/domain/dga.c:23-29 | the 684- and 688-byte sizes the step loops of `dga.c` and `dgaa1.c` run over are the `sizeof` of their `Example` declarations |
| Transfer.PaddedVocabCovers | Tests/domain/dga_host2.c:72-84 | the data copy followed by the zero-padding copy covers exactly [0, rounded size), the padding is 1 to 7 bytes, and the rounded size passes the check |
| Transfer.ModelSizeAligned | Tests/domain/dga_host2.c:160 | `check_alignment(0, MODEL_SIZE)` passes |
| Domains.ReadCStringOfCopy | Tests/domain/dtest_host2.c:45-47 | a buffer holding a name followed by a NUL prints exactly that name |
| Domains.SlotSize | Tests/domain/dtest_host.c:87-92 | `aligned_len` is a multiple of 8 that holds the name and its terminator, with less than 8 bytes of slack |
| Domains.SlotOffsetsAligned | Tests/domain/dtest_host.c:97 | every slot offset is a multiple of 8, `check_alignment(offset, aligned_len)` passes for every name, and the offsets never decrease |
| Domains.SlotChunksTile | Tests/domain/dtest_host.c:84-100 | slot k is copied at the sum of the earlier slot sizes, and the slots tile MRAM from 0 |
| Domains.PackSlotsSucceeds | Tests/domain/dtest_host.c:94-98 | packing succeeds iff every slot fits the staging buffer, and the image then ends where the last slot ends |
| Domains.PackSlotsHolds | Tests/domain/dtest_host.c:94-99 | the image holds each name, NUL-terminated, at its slot offset |
| Domains.SlotRoundTrip | Tests/domain/dtest_host.c:84-100 | reading a C string at slot k of the image gives back name k |
| Domains.AlignedStagingNeverOverreads | Tests/domain/dtest_host.c:94-98 | with a staging buffer whose size is a multiple of 8, every name that fits is sent without reading past the buffer |
| Domains.Host2StagingOverread | Tests/domain/dtest_host2.c:108-111 | a 160-character name makes the 164-byte staging buffer be read 4 bytes past its end, and a 168-byte buffer would not be |
| Domains.TotalNeedsNoRounding | Tests/domain/dtest_host.c:80-82 | the sum of the slot sizes is already a multiple of 8, so the final rounding changes nothing |
| Domains.AsWrittenSendsOnlyFirst | Tests/domain/dtest_host1.c:140 | `sizeof(domains) / sizeof(domains[0])` on a `char **` parameter is 1, so only the first name is sent and nothing can be read at the second slot |
| Domains.TransferDomainsDeliversAll | Tests/domain/dtest_host.c:65-100 | with an explicit count every name is sent, and each reads back at its slot |
| Domains.PackedBufferHolds | Tests/domain/dga_host4.c:98-102 | the packed buffer holds each name, NUL-terminated, at the sum of the earlier terminated lengths |
| Domains.PackedRoundTrip | Tests/domain/dga_host4.c:98-110 | the sent buffer has an aligned length equal to the padded total, and every name reads back at its packed offset |
| Domains.PackedBufferFits | Tests/domain/dga_host4.c:89-105 | packing succeeds iff the rounded total fits the buffer |
| Domains.ReadbackDomain | Tests/domain/dtest_host2.c:41-46 | 168 bytes are read back and byte 164 is forced to NUL |
| Domains.ReadbackRoundTrip | Tests/domain/dtest_host2.c:39-49 | the printed readback is at most 164 characters, and it equals the first name sent |
| Domains.SampleDomainSizes | Tests/domain/dga_host5.c:137-151 | the seven sample names take 91 bytes packed (96 rounded) and 120 bytes in slots, and each slot fits a 32-byte staging buffer |
| Domains.Host5PointerArrayOverread | Tests/domain/dga_host5.c:70-83 | `transfer_domains` copies the rounded packed length starting at the array of host pointers, and that copy reads past the array iff the terminated names take more bytes than their pointers |
| Domains.Host5SampleOverread | Tests/domain/dga_host5.c:137-155 | for the seven sample names the copy takes 96 bytes from a 56-byte pointer array, 40 past its end |
| Vocabulary.SignedCode | Tests/domain/dga.c:38 | `(int)c` of a signed char is in [-128, 128), and it is non-negative iff c is ASCII, when it equals the code |
| Vocabulary.Strlen | Tests/domain/dga.c:36 | `strlen` of a field is the index of its first NUL, and none exists iff the field holds no NUL |
| Vocabulary.Preprocess | Tests/domain/dga.c:35-43 | on success the ids are `vocab[(int)c]` for each character of the name and 0 after it, `max_len` of them |
| Vocabulary.PreprocessSucceedsIff | Tests/domain/dga.c:35-43 | the preprocessor is defined iff the name is terminated, fits `max_len`, and every character indexes the table |
| Vocabulary.PreprocessIgnoresTail | Tests/domain/dga.c:36-42 | bytes after the terminator do not affect the ids |
| Vocabulary.PreprocessDomain | Tests/domain/dga1.c:198-206 | the loop implementation computes the same result as the definition |
| Vocabulary.AsciiFitsWideTable | Tests/domain/dga1.c:41 | with a table of at least 128 entries every terminated ASCII name that fits is preprocessed |
| Vocabulary.DtestTableTooSmall | Tests/domain/dtest.c:30 | `dtest.c`'s 32-entry table is indexed at 98 by the first letter of "baidu.com" |
| Vocabulary.ZeroTableGivesZeroIds | Tests/domain/dtest_host1.c:216-219 | a zero-filled vocabulary maps every name to all-zero ids |
| Vocabulary.ListedIdInverse | Tests/domain/domain_host.c:28-81 | each listed character has an id in 2..55, and the id determines the character |
| Vocabulary.MemsetOnesFloatIsTiny | Tests/domain/domain_host.c:26 | the float whose four bytes are all 0x01 lies strictly between 0 and 1 |
| Vocabulary.TruncToInt | Tests/domain/domain_host.c:87 | the float-to-`int32_t` conversion truncates toward zero |
| Vocabulary.HostVocabEntry | Tests/domain/domain_host.c:25-81 | each table entry is the listed id, or the fill value for an unlisted character |
| Vocabulary.ListedIds | Tests/domain/domain_host.c:28-81 | listed characters get ids 2..55 and distinct characters get distinct ids |
| Vocabulary.UnlistedIdIsZero | Tests/domain/domain_host.c:26 | as written, an unlisted character gets id 0 (the padding id) |
| Vocabulary.UnlistedIdIsUnknown | Tests/domain/domain_host.c:26 | with the table filled with 1.0, an unlisted character gets the `[UNK]` id 1 and listed ids are unchanged |
| Vocabulary.GenerateCharIds | Tests/domain/domain_host.c:84-92 | the length is the name's length, the ids are the truncated table entries of the name's bytes, and the rest is 0 |
| Vocabulary.StrncpyTermination | Tests/domain/domain_host.c:172 | `strncpy` into the 16-byte field leaves a name of 16 or more characters unterminated, and it stores a shorter name terminated |
| Vocabulary.SixteenCharSample | Tests/domain/domain_host.c:165 | the sample "01ol.ee4kdushuba" has exactly 16 characters, so its field is unterminated |
| Activation.TanhApprox | Tests/domain/dga1.c:90-94 | the result is in [-1, 1], saturates outside [-3, 3], has the sign of x, and is no larger in magnitude than x inside |
| Activation.TanhOdd | Tests/domain/dga1.c:90-94 | the approximation is an odd function |
| Activation.TanhContinuousAtClamp | Tests/domain/dga1.c:91-93 | the rational part equals the clamp values at ±3 |
| Activation.ExpApproxLoop | Tests/domain/dga1.c:97-107 | the `term *= x / n` loop computes the degree-9 Taylor polynomial of exp |
| Activation.TermStep | Tests/domain/dga1.c:102-105 | one loop step turns x^(n-1)/(n-1)! into x^n/n! |
| Activation.ExpApproxAtZero | Tests/domain/dga1.c:97-107 | `exp_approx(0)` is 1 |
| Activation.ExpApproxPositive | Tests/domain/dga1.c:97-107 | `exp_approx(x)` is positive for every x >= -1, and so on the range of `tanh_approx` |
| Activation.ExpApproxIncreasing | Tests/domain/dga1.c:97-107 | `exp_approx` is strictly increasing on [-1, 1]: there a < b gives `exp_approx(a) < exp_approx(b)` |
| Activation.TaylorGapFactors | Tests/domain/dga1.c:97-107 | the 9-term sums at b and at a differ by (b - a) times the sum of the terms' gap polynomials over n! |
| Activation.ExpGapPositive | Tests/domain/dga1.c:97-107 | on [-1, 1] that gap sum is at least 1/4: the first three terms give at least 1/2, the last six take away less than 1/4 |
| Activation.ExpApproxAtMinusTen | Tests/domain/dga1.c:97-107 | `exp_approx(-10)` is -801253/567, far below 0 |
| Kernel.CellsDistinct | Tests/domain/dga1.c:131 | distinct (row, column) pairs of the flattened table are distinct cells |
| Kernel.EmbedRows | Tests/domain/dga1.c:127-133 | row i of the buffer is table row `char_ids[i]`, and every other cell keeps its previous content |
| Kernel.ReverseSumIsColumnSum | Tests/domain/dga1.c:142-150 | summing rows in reverse order gives the column sum |
| Kernel.EncodeClosedForm | Tests/domain/dga1.c:139-158 | after L layers the backward accumulator holds L times the column sum S and the forward one L(L+3)/2 times S, because neither is reset between layers |
| Kernel.TwoLayersGiveFive | Tests/domain/dga1.c:139-158 | with two layers the forward accumulator is 5 times the column sum |
| Kernel.EncodeLoops | Tests/domain/dga1.c:139-158 | the nested loops compute the forward accumulator of the two-layer definition |
| Kernel.PositionLoop | Tests/domain/dga1.c:142-151 | one pass over the positions adds the column sum forwards and the reverse sum backwards |
| Kernel.ColumnLoop | Tests/domain/dga1.c:144-150 | one position adds row i forwards and row `len - i - 1` backwards |
| Kernel.MergeBackward | Tests/domain/dga1.c:153-157 | the bidirectional merge adds the backward accumulator into the forward one |
| Kernel.WideRowsReadTable | Tests/domain/dga1.c:128-150 | when rows are at least 100 wide, the accumulation reads only embedded table cells |
| Kernel.NarrowRowsReadStale | Tests/domain/dt2.c:101-110 | with 64-wide rows, one character and any buffer of at least 100 floats (dt2.c's 164 * 64 included), column 64 reads a cell never embedded, and the output there is 5 times that stale value |
| Kernel.DenseScore | Tests/domain/dga1.c:165-171 | the squashed score is in [-1, 1] |
| Kernel.DenseScoreIsWeightedSum | Tests/domain/dga1.c:165-171 | `dense_output[c]` is the sum of `lstm_output[j]` times the weight at `100 + 100 c + j` over the 100 accumulators, through `tanh_approx` in the squashing variants |
| Kernel.DotIsSumProducts | Tests/domain/dga1.c:165-171 | the accumulation loop's dot product equals the sum of the products of matching entries |
| Kernel.SoftmaxLabelIff | Tests/domain/dga1.c:174-186 | the label is 1 iff the class-1 exponential exceeds the class-0 one with a non-negative sum, or falls below it with a negative sum |
| Kernel.TieIsBenign | Tests/domain/dga1.c:182-186 | equal scores give label 0 |
| Kernel.SquashedLabelIff | Tests/domain/dga1.c:165-186 | for squashed scores the label is 1 iff the class-1 exponential is the larger, and iff the class-1 score is the larger |
| Kernel.RawScoresFlipLabel | Tests/domain/dt2.c:119-131 | unsquashed scores 0 and -10 give label 1, although class 0 has the larger exponential |
| Kernel.ZeroAccumulatorsAreBenign | Tests/domain/dga1.c:136-186 | all-zero accumulators (an empty name) classify as 0 under both scorings |
| Kernel.RunInference | Tests/domain/dtest.c:63-119 | a failed allocation keeps the old label, an empty name gets 0, and with wide rows the label is the classification of 5 times the table column sums of the ids |
| Gated.GatedTask | Tests/domain/dt1good.c:31-86 | the record written back carries the reference hidden layers, the gated second layer and their sum, with the input fields unchanged |
| Gated.LoadRow | Tests/domain/dt1good.c:48-51 | the first 4 padding slots become table row `char_id`, and the rest is unchanged |
| Gated.MixAgrees | Tests/domain/dt1good.c:49-55 | mixing the loaded padding equals mixing the table row directly |
| Gated.AccumulateRow | Tests/domain/dt1good.c:52-56 | each hidden cell gains the weighted sum of the loaded row |
| Gated.SecondLayer | Tests/domain/dt1good.c:60-66 | the second layer adds 4 times the mix of the first layer (the outer loop repeats it) |
| Gated.AccumulateVector | Tests/domain/dt1good.c:61-65 | one pass adds the weighted sum of the first layer to each cell |
| Gated.ApplyGate | Tests/domain/dt1good.c:69-72 | each cell is scaled by 0.8 |
| Gated.FinalSum | Tests/domain/dt1good.c:75-79 | the output is the sum of the four gated cells |
| Gated.EmptyNameScoresZero | Tests/domain/dt1good.c:41-79 | an empty name scores 0, which is not above the threshold |
| Gated.HostEmbedding | Tests/domain/domain_host.c:176-182 | the host's embedding table has cell (i, j) equal to i + j |
| Gated.HostIdsSelectRows | Tests/domain/domain_host.c:171-174 | the host's ids are all in 0..55, so they select rows inside the embedding table |
| Records.Int32RoundTrip | Tests/domain/dtest2.c:13 | decoding the four little-endian bytes of an `int32_t` gives it back |
| Records.Int32BytesRoundTrip | Tests/domain/dtest2.c:13 | encoding the value of any four bytes gives the bytes back |
| Records.IntsRoundTrip | Tests/domain/dtest2.c:15-16 | an `int32_t` array survives encoding and decoding |
| Records.IntsBytesRoundTrip | Tests/domain/dtest2.c:15-16 | any byte string whose length is a multiple of 4 survives decoding and encoding |
| Records.CharsRoundTrip | Tests/domain/dtest2.c:14 | a `char` array survives encoding and decoding |
| Records.CharsBytesRoundTrip | Tests/domain/dtest2.c:14 | any bytes survive decoding as chars and encoding |
| Records.RecordLayout | Tests/domain/dtest2.c:12-18 | the fields sit at 0, 4, 124, 604 and 628, and the record is 632 bytes |
| Records.RecordRoundTrip | Tests/domain/dtest2.c:12-18 | decoding an encoded record gives it back |
| Records.BytesRoundTrip | Tests/domain/dtest2.c:12-18 | encoding a decoded 632-byte image gives the image back |
| Records.AlignedSizes | Tests/domain/dtest2.c:44 | the rounding leaves the 632-, 856- and 352-byte records unchanged, and one 632-byte copy is legal |
| Records.Dga1AlignedRecordCopies | Tests/domain/dga1.c:30-37 | declared `aligned(8)`, `dga1.c`'s record is 672 bytes and copies in one legal chunk |
| Records.WriteReadRoundTrip | Tests/domain/dtest2.c:44-53 | reading back the written size gives the encoded record, which decodes to the record, and MRAM past it is unchanged |
| Records.SampleRecord | Tests/domain/dtest2.c:27-41 | the sample has length 10, ids equal to the codes of "domain.com", uninitialised ids after them, extra data 10·i and label 1 |
| Records.SampleReadsBack | Tests/domain/dtest2.c:27-67 | the readback has length 10, a name terminated after "domain.com", the ten codes, extra data 10·i and label 1 |
| Records.HostRecord | Tests/domain/dtest_host1.c:229-239 | the host record has the name's length, `get_char_id` of each character, zeros after it and label 0 |
| Records.IdentityTable | Tests/domain/dtest_host1.c:48-50 | `get_char_id` is the identity on ASCII codes |
| Records.HostIdsMatchPreprocessor | Tests/domain/dtest_host1.c:229-239 | for an ASCII name shorter than the field, the host's ids are what the DPU preprocessor computes with an identity table |
| Records.HostSampleFits | Tests/domain/dtest_host1.c:222-224 | the host's 23-character sample name fits the 64-byte field |
| Coordinator.VisitsIndexed | Tests/domain/dga1.c:304 | the k-th record tasklet t visits is `t + k * NR_TASKLETS`, below the count, increasing, and the next would not be |
| Coordinator.PartitionByResidue | Tests/domain/dga1.c:304 | record i is visited by tasklet t iff `i % NR_TASKLETS == t` |
| Coordinator.TaskletRecords | Tests/domain/dga1.c:304 | the stride loop visits exactly the records of the definition |
| Coordinator.Dga1ReadWindow | Tests/domain/dga1.c:305-313 | address arithmetic only: `i * 130 + 668 <= 1430` iff i <= 5, so the 668-byte window at `&domains[i * 130]` ends inside the 1430-byte array only for the first six tasklets (the read itself goes to MRAM, see Findings) |
| Coordinator.Dga1CastReadMissesWram | Tests/domain/dga1.c:305-311 | the record read through the cast `&domains[i * 130]` takes MRAM bytes at that offset and is the same whatever WRAM holds. It returns the names only when MRAM happens to hold them there. A name "abc" in WRAM over zeros in MRAM reads as zeros |
| Coordinator.Dga1CharIdsCastRead | Tests/domain/dga1.c:109-116 | the `char_ids` reload through the cast `&example->char_ids` returns the ids `preprocess_domain` stored in the WRAM record iff MRAM holds the same ids at that offset; over zero MRAM, any name with a non-zero id reaches the embedding changed |
| Coordinator.MramDomainsReadBack | Tests/domain/dga1.c:44 | with `domains` an MRAM symbol, the host's copy of the 1430 name bytes followed by tasklet i's read at `i * 130` returns name i's 130-byte slot, whatever MRAM held before |
| Coordinator.Dga1AsWrittenSkipsRecord | Tests/domain/dga1.c:309-340 | for tasklet t > 0 the record written back is the input unchanged, and the result goes to the stale slot t |
| Coordinator.Dga1AsWrittenFirstTasklet | Tests/domain/dga1.c:309-328 | tasklet 0 does process its input |
| Coordinator.Dga1StepProcesses | Tests/domain/dga1.c:304-340 | indexing the buffer consistently writes back the processed input and leaves the other slots alone |
| Coordinator.TaskletStep | Tests/domain/dtest.c:121-146 | a tasklet below the limit replaces its own record by the processed one and touches nothing else, and one at or above the limit changes nothing |
| Coordinator.RunTaskletsOwned | Tests/domain/dga.c:117-141 | whatever order distinct tasklets run in, each record ends as processed iff its tasklet ran and is below the limit |
| Coordinator.EveryRecordProcessed | Tests/domain/dtest.c:121-146 | when every record has a tasklet, every record ends processed |
| Coordinator.ResultsSize | Tests/domain/dtest_host.c:17-19 | the results read back are 7 records of 192 bytes, 1344 in all, each starting aligned |
| Coordinator.Verdict | Tests/domain/dtest_host.c:192-199 | a record is reported malicious iff its label is 1 |
| Coordinator.PrintInferenceResults | Tests/domain/dtest_host2.c:137-161 | the final flag is 1 iff some label is non-zero, and each report is malicious iff its label is 1 |
| Coordinator.FlaggedSplits | Tests/domain/dtest_host1.c:185-192 | the flag of a concatenation is the disjunction of the flags |
| Coordinator.FlagAgreesWithReports | Tests/domain/dtest_host2.c:142-155 | for 0/1 labels the flag is set iff some report is malicious |
| Coordinator.OtherLabelsDisagree | Tests/domain/dtest_host2.c:146-154 | a label of 2 sets the flag but is reported benign |

## Left out

- The UPMEM SDK calls (`dpu_alloc`, `dpu_load`, `dpu_launch`, `dpu_prepare_xfer`, `dpu_push_xfer`) are left out. Each transfer is modelled as the chunk sequence it issues. `dpu_copy_to` and `mram_read` / `mram_write` are modelled as `Transfer.CopyChunks`.
- File I/O (`fopen` / `fread` of the weights, `load_weights_from_text`) and every `printf` are left out. The weights are a parameter.
- Concurrency (`BARRIER_INIT`, `SEMAPHORE_INIT`, `MUTEX_INIT`, `barrier_wait`, `sem_take` / `sem_give`) is left out. Tasklets run one after another in an arbitrary order of distinct ids, and `Coordinator.RunTaskletsOwned` shows the order does not matter.
- The heap (`mem_alloc`, `mem_reset`, `malloc`) is left out. Whether an allocation succeeds is the `gotBuffer` parameter of `Kernel.RunInference`.
- `dga1.c`'s `mem_alloc(130 * sizeof(Example))` of 86 840 bytes is larger than WRAM. It always fails on the device; this is not modelled.
- IEEE floating point is left out. The kernel runs over exact reals, with no rounding, overflow or NaN.
- One case of the softmax depends on IEEE semantics: when `sum_exp` is 0 the comparison follows the numerators (`Kernel.SoftmaxLabel`).
- The pointer array `domains_need_predict` is sent where the names belong, so the DPU receives host pointers, not characters. This happens through `dpu_push_xfer` at `dga1.c:227` and through `dpu_copy_to` at `dga_host1.c:82`, `dga_host2.c:130`, `dga_host3.c:68` and `dga_host5.c:81`. Only the sizes are modelled.
- At `dga_host5.c:81` the size passed is the rounded packed length of the names, 96 bytes (`dga_host5.c:143-155`), so the copy reads 40 bytes past the 56-byte pointer array. This read out of bounds is stated by `Domains.Host5PointerArrayOverread` and `Domains.Host5SampleOverread`; the bytes it reads are not modelled.
- `size_t` and `int32_t` wrap-around are left out. Sizes and offsets are natural numbers, and the records' `int32_t` fields are kept in range by `Records.WellFormed`.
- `dga_host.c` only declares data and initialisers and is not part of this model. The same goes for `DebugInfo` and `print_debug_info` of `dtest_host1.c`, which only print.
- The host `main` functions are modelled only where they compute something (sizes, samples and the final verdict). Their sequencing of SDK calls is left out.
- `Coordinator.TaskletStep`: the per-record work is an abstract `process` function. The kernel's own contracts cover what it computes.
- `Kernel.RunInference`: for rows narrower than the 100 hidden cells (`dt2.c`, `dtest.c`) it only states that the label is 0 or 1, because the result there depends on uninitialised memory. `Kernel.NarrowRowsReadStale` shows which cell is read.
- `Records.HostIdsMatchPreprocessor`: stated only for ASCII names shorter than the 64-byte field. Longer names leave the field unterminated (`Vocabulary.StrncpyTermination`).
- `Transfer.Dga1RawCopies`: shows the 668-byte copy is illegal. What the hardware does with it is not modelled.
- `Vocabulary.Preprocess`, `Domains.SlotImage`, `Domains.PackedBuffer` and `Kernel.RunInference` model out-of-bounds accesses in the C code, not errors the programs report. The C code reads or writes out of bounds and carries on. Those accesses are not modelled.
  - `Preprocess`: `Unterminated` is the `strlen` past the field. `TooLong` is the write past `max_len` ids. `OutsideTable` is the `mram_vocabulary` index outside the table.
  - `SlotImage`: `NameTooLong` is the `strncpy` overflow. `StagingOverread` is the copy past the staging buffer.
  - `PackedBuffer`: `BufferOverflow` is the `memcpy` past the buffer. `BufferOverread` is the send past it.
  - `RunInference`: the requires clauses `IdsInTable`, `len * dim <= |stale|` and `Readable` exclude the table lookups and the reads past the embedding buffer. `Readable` excludes a 32-character name with 64-wide rows in `dtest.c`. There the last row's reads reach cell (32 - 1) * 64 + 100 = 2084 of a 2048-cell buffer.
- dga1.c reads through `__mram_ptr` casts of WRAM addresses, at lines 305 and 110-116. What these reads return is modelled only by `Coordinator.CastRead`, so the classification of those bytes in dga1.c is not modelled (see Findings).

## Findings

| source | as written | input that shows it | evidently intended | confidence | as-written member | corrected member |
|---|---|---|---|---|---|---|
| Tests/domain/dga1.c:266-290 | `read_example_from_mram` / `write_example_to_mram` round the chunk down to a multiple of 8 for a 668-byte record | the last 4 bytes round to a 0-byte chunk, so the loop spins at offset 664 | an `aligned(8)` record (672 bytes) copied in one legal chunk | not executed | Transfer.Dga1HelpersStall | Records.Dga1AlignedRecordCopies |
| Tests/domain/dga.c:139-141 | the 8-byte write loop runs while `offset < sizeof(Example)` for a 684-byte record | every tasklet writes 688 bytes, 4 of them into the next record's `domain_len`; record 1 starts at 684, which is unaligned | the `aligned(8)` 688-byte record of `dgaa1.c` | not executed | Transfer.DgaStepLoopOverrun | Transfer.DgaaStepLoopExact |
| Tests/domain/dtest_host1.c:140 | the loop bound is `sizeof(domains) / sizeof(domains[0])` on a `char **` parameter | any list of two or more names: only the first is sent | the explicit count of `dtest_host.c` | not executed | Domains.AsWrittenSendsOnlyFirst | Domains.TransferDomainsDeliversAll |
| Tests/domain/dtest_host2.c:108-111 | 168 bytes (`aligned_len`) are copied out of a 164-byte staging array | a 160-character name | a staging buffer whose size is a multiple of 8 | not executed | Domains.Host2StagingOverread | Domains.AlignedStagingNeverOverreads |
| Tests/domain/dtest.c:30 | the vocabulary has `MAX_DOMAIN_LEN` (32) entries but is indexed by character code | "baidu.com": 'b' indexes entry 98 | a table covering the ASCII codes | not executed | Vocabulary.DtestTableTooSmall | Vocabulary.AsciiFitsWideTable |
| Tests/domain/domain_host.c:26 | `memset(vocab, 1, sizeof(vocab))` on a `float` table | 'A': the entry is the float with bytes 0x01010101, which truncates to id 0 | every unlisted character gets the `[UNK]` id 1 | not executed | Vocabulary.UnlistedIdIsZero | Vocabulary.UnlistedIdIsUnknown |
| Tests/domain/dt2.c:101-110 | `embeddings[i][j]` for j < 100 on rows of 64 | a one-character name: column 64 reads a cell never written | rows at least as wide as the hidden size (`dga1.c`'s 128) | not executed | Kernel.NarrowRowsReadStale | Kernel.WideRowsReadTable |
| Tests/domain/dt2.c:119-131 | the dense outputs are not passed through `tanh_approx` before `exp_approx` | scores 0 and -10: `exp_approx(-10)` is negative and label 1 wins | scores squashed into [-1, 1], where the label follows the larger exponential | not executed | Kernel.RawScoresFlipLabel | Kernel.SquashedLabelIff |
| Tests/domain/dga1.c:309-340 | the record is read into `examples[0]`, but `examples[tasklet_id]` is preprocessed and inferred, and `examples[0]` is written back | tasklet 1: its result goes to a stale slot and the input is written back unchanged | read, process and write the same slot | not executed | Coordinator.Dga1AsWrittenSkipsRecord | Coordinator.Dga1StepProcesses |
| Tests/domain/dga1.c:305 | `&domains[i * 130]`, the address of the WRAM `__host` array, is cast to `__mram_ptr` and read with `mram_read` | the host puts "abc" in `domains` while MRAM holds zeros at that offset: the tasklet reads zeros | `domains` declared in MRAM, so the read returns the name the host sent | not executed | Coordinator.Dga1CastReadMissesWram | Coordinator.MramDomainsReadBack |
| Tests/domain/dga1.c:110-116 | `run_inference` casts `&example->char_ids`, a WRAM address, to `__mram_ptr` and reloads `char_ids` from MRAM | ids 97, 98, 99, 0 stored by `preprocess_domain` over zeros in MRAM: the embedding reads ids 0 | the ids taken from `example->char_ids` directly | not executed | Coordinator.Dga1CharIdsCastRead | Kernel.RunInference |
| Tests/domain/dtest_host2.c:194 | one `dpu_copy_to` of `MAX_DOMAIN_LEN` = 164 bytes to MRAM | any name: 164 is not a multiple of 8 | a copy of the 168-byte padded field, as the readback at line 44 already uses | not executed | Transfer.Host2NameCopyUnaligned | Transfer.Host2NameCopyPadded |
