# unizip in Dafny

unizip gives several compression libraries one zlib-style stream interface. This project models the
two places where the library does more than pass calls on, and proves what they promise.

**The UADK streaming driver** (`src/uadk`). A caller's buffer is moved in chunks through a 1 MB
staging block into an accelerator that may consume and produce any amount per call. The device is a
`Behaviour`: an arbitrary function from the whole log of earlier exchanges and the present request to
a reply, so a statement about all behaviours is a statement about all consume/produce schedules. Two
contracts are assumed of it: `Sound` (a call that does not fail stays within its input and room) and
`Progressive` (a call with input and room consumes something or drains a finite pending output). The
second one is what makes the nested retry loops end; their `decreases` clauses are the lexicographic
measure (source left, staged input left, pending output).

- `UadkDevice`, `UadkStream`: op data, staging block with its sliding pointer, first-call reset of the
  totals, the hand-written stream tail, the inner retry loop (`ZipStream.Pump`).
- `UadkPlatform`, `UadkLifecycle`: acquisition and release under every pattern of refusals.
- `UadkOneShot`: `hw_stream_compress`, `hw_stream_decompress`; every device call of a run is pinned
  down (window, room, flush flag), and so are the bytes written.
- `UadkRoundTrip`: decompression undoes compression for every pair of drained devices, chunk sizes,
  schedules and capacities; `StoredCodec` is such a pair (each byte a stored DEFLATE block; how much
  the encoder writes in a call and how far it reads ahead, and how much the decoder reads, is left to
  an arbitrary pace), so the contracts can be met and its round trip holds outright.
- `UadkCallback`, `UadkTrailer`: the streaming callbacks, whole deflate and inflate sessions, and what
  the appended trailer means by RFC 1950, RFC 1951 and RFC 1952. `Crc32` proves that complementing and
  bit-reversing the device's register gives the CRC of section 8 of RFC 1952; `ShiftAlgebra` holds the
  inductions of that proof over an abstract step.

**The stream-accounting adapters** (`src/xz`, `src/bzip2`, `src/zstd`, `src/brotli`). The first three
keep a latch: the library's private remainder carries over between calls and a new offer is looked at
only when the old one is used up. `Latched` is that machine; `XzAdapter` (pointer and 64-bit total),
`Bzip2Adapter` (pointer and two 32-bit halves) and `ZstdAdapter` (fixed base and cursor) refine it,
and `AdapterRuns` compares them over whole runs. What a library does in a call is an arbitrary choice
of how much to consume, produce and return, cut to what it is offered. `BrotliAdapter` is the contrast:
no latch, zlib's conservation law.

What the callers are told is stated a second time in plain terms, over the raw fields of the device's
replies and the numbers of the source: `UadkDevice.VerdictExactly`, `UadkOneShot.CompressAnswer` and
`DecompressAnswer`, the predicates `Requested` and `Answered` of `UadkCallback`,
`AdapterRuns.LibraryIsReported` and `OnlyFinishMatters`, `BrotliAdapter.EncoderEndsExactly` and
`DecoderDecidesOnce`.

Where the code falls short of what its interface suggests, the exact condition is proved:

- `UadkTrailer.GzipTrailerExactly`, `UadkTrailer.ZlibTrailerExactly`: the trailer is right if and only if
  the device was called at all; a stream finished at once gets a checksum made from zeroed memory.
- `UadkTrailer.EmptySourceHasNoHeader`: `hw_stream_compress` on an empty source writes a bare tail that
  is no stream of its format. The round trip is therefore about non-empty sources.
- `UadkOneShot.StreamDecompress`: chunk size 0 returns OK and writes nothing; this is in its contract.
- `UadkRoundTrip.TruncationIsAccepted`: a stream cut off anywhere decompresses with OK to a first part
  of the plain text. `StoredCodec.TruncatedOutcome` gives the length for every cut, and that all of the
  text comes back if and only if all of its blocks are there.
- `UadkCallback.TotalsAdvanceExactly`: the first device call restarts the totals from zero, so a
  callback advances them by what it moved if and only if the device had been called, or they were zero,
  before. `UadkTrailer.CloseThenContinue` is the family of inputs on which they go wrong: a stream
  closed before it has begun and then continued forgets the bytes of its first tail.
- `UadkLifecycle.WrappersAgreeExactly`: the `windowBits` on which both init2 routines choose the same
  wrapper.
- `ZstdAdapter.AgreesExactly`, `AdapterRuns.AgreeExactly`: zstd makes the same library calls as the
  others, in one call and over whole runs, if and only if FINISH finds no input held; `AdapterRuns.FinishFirstLosesInput` is the family of inputs on which it drops
  the caller's data, and `Latched.CompletionFinishFindsNothing` shows that a caller who feeds everything first never
  meets it.
- `Latched.LoopOffersExactly`: the feeding loop of the repository's tests, which offers the same number
  of bytes each time, keeps inside its buffer if and only if that number divides the length.

## Model

| member | source | states |
|---|---|---|
| Words.BitReverseMovesBit | src/uadk/unizip_algorithm_uadk.c:170-178 | bit i of the result is bit 31 - i of the word, for every word and every i |
| Words.BitReverseIsInvolution | src/uadk/unizip_algorithm_uadk.c:170-178 | reversing twice is the identity |
| Words.BitReverseOfComplement | src/uadk/unizip_algorithm_uadk.c:201-202 | reversal commutes with complement |
| Words.SwappedStoreIsBigEndian | src/uadk/unizip_algorithm_uadk.h:42-46 | swab32 followed by a little-endian store reads back, most significant byte first, as the value |
| Crc32.ReverseCarriesBit | src/uadk/unizip_algorithm_uadk.c:170-178 | bit reversal carries one step of the MSB-first register to one step of the reflected one |
| Crc32.ReverseCarriesRegister | src/uadk/unizip_algorithm_uadk.c:200-204 | the reversed register is the table-driven update of RFC 1952 for every byte sequence |
| Crc32.ConvertedRegisterIsCrc | src/uadk/unizip_algorithm_uadk.c:200-204 | complement and reversal of the device's register give the CRC of section 8 of RFC 1952 for every byte sequence |
| Crc32.CrcOfLetterA | src/uadk/unizip_algorithm_uadk.c:200-204 | for the message "a" both the definition and the converted register give the published CRC-32 e8b7be43 |
| UadkDevice.Device.DoComp | src/uadk/unizip_algorithm_uadk.c:223-230 | one device call sees the window at opdata->in, stays within it and the room, and writes what it produced |
| UadkDevice.VerdictExactly | src/uadk/unizip_algorithm_uadk.c:223-260 | by code, status and flush mode alone: a call fails exactly on a negative code or on code 0 with a bad status outside FINISH, ends exactly on code 1 or 3, on FINISH with 0, or on an end status with 0, and otherwise hands on its code |
| UadkDevice.CleanExactly | src/uadk/unizip_algorithm_uadk.c:223-260 | a log is free of failures if and only if none of its replies is one by code or by status |
| UadkPlatform.Platform.Release | src/uadk/unizip_algorithm_uadk.c:127-143 | only a live handle can be released, and then it is no longer live |
| UadkStream.ZipStream.Load | src/uadk/unizip_algorithm_uadk.c:387-396 | after the copy to next_in the window the device will read is the chunk |
| UadkStream.ZipStream.AppendStoreBlock | src/uadk/unizip_algorithm_uadk.c:181-210 | the bytes at next_out are the tail of the format; total_out rises and avail_out falls by exactly its length |
| UadkStream.FreshTail | src/uadk/unizip_algorithm_uadk.c:181-210 | the nine and thirteen bytes a zlib and a gzip stream get that are closed before their first device call |
| UadkStream.ZipStream.Account | src/uadk/unizip_algorithm_uadk.c:231-247 | counters move by what was consumed and produced, from zero on the first call; the input pointer slides or returns to the block start |
| UadkStream.ZipStream.SendAndRecv | src/uadk/unizip_algorithm_uadk.c:212-261 | a tail when FINISH finds nothing staged, otherwise one device call with the staged window, after which the window is the unread rest inside the block |
| UadkStream.ZipStream.Step | src/uadk/unizip_algorithm_uadk.c:295-303 | the same with every failure turned into UNIZIP_STREAM_ERROR |
| UadkStream.PumpAdvances | src/uadk/unizip_algorithm_uadk.c:399-410 | one call keeps: consumed bytes are the staged prefix in order, copied bytes are all that was produced, totals count both |
| UadkStream.ZipStream.Pump | src/uadk/unizip_algorithm_uadk.c:399-410 | the retry loop ends; without a failure the device consumed exactly the staged bytes in order, each call was offered what was left, and the copied bytes are all it produced |
| UadkLifecycle.WrappersAgreeExactly | src/uadk/unizip_algorithm_uadk.c:270-331 | the two init2 routines choose the same wrapper if and only if windowBits lies in 0..15 or windowBits / 16 is 1 or 2 modulo 4 |
| UadkLifecycle.WrapperOf | src/uadk/unizip_algorithm_uadk.c:263-332 | deflate chooses gzip from windowBits 16 on; inflate chooses by windowBits / 16 modulo 4, and leaves the wrapper unassigned for remainder 3 and for negative values |
| UadkLifecycle.HwInit | src/uadk/unizip_algorithm_uadk.c:31-144 | succeeds if and only if all eight acquisitions are granted; then it hands over exactly eight new live handles, otherwise the live set is as before, with the error code of the source |
| UadkLifecycle.HwEnd | src/uadk/unizip_algorithm_uadk.c:146-168 | releases exactly what a successful init handed over |
| UadkOneShot.ChunkContinuesTrace | src/uadk/unizip_algorithm_uadk.c:386-398 | the calls of one inner loop continue the trace over the whole source |
| UadkOneShot.FlushPattern | src/uadk/unizip_algorithm_uadk.c:398-412 | the flags of a run are SYNC* FINISH+, and a run that fed all of the source ended with FINISH |
| UadkOneShot.CompressChunks | src/uadk/unizip_algorithm_uadk.c:386-412 | the nested loops: fed bytes are the whole source in order, output is all that was produced |
| UadkOneShot.StreamCompress | src/uadk/unizip_algorithm_uadk.c:360-415 | the device is the zlib one for WCRYPTO_ZLIB and the gzip one for any other alg_type; every call offers the rest of its chunk with FINISH on the last chunk only; UNIZIP_STREAM_ERROR exactly if the last reply is a failure by code or status, else OK; on OK the device consumed exactly src and dst is all it produced; an empty source gives the nine or thirteen bytes of a bare tail at any chunk size; the live set is as before on every path |
| UadkOneShot.CompressAnswer | src/uadk/unizip_algorithm_uadk.c:399-404 | read off the replies: an error if and only if the last one is a failure by code or status outside FINISH, and no earlier reply is one |
| UadkOneShot.UnpackRound | src/uadk/unizip_algorithm_uadk.c:457-467 | at the capacity check total_out is the bytes already copied plus those just produced |
| UadkOneShot.DecompressCall | src/uadk/unizip_algorithm_uadk.c:457-468 | one call, check and copy: nothing beyond dstlen is written |
| UadkOneShot.DecompressChunks | src/uadk/unizip_algorithm_uadk.c:439-470 | the nested loops end with the outcome of StreamDecompress |
| UadkOneShot.StreamDecompress | src/uadk/unizip_algorithm_uadk.c:417-474 | the device is the zlib one for WCRYPTO_ZLIB and the gzip one otherwise; a prefix of src is consumed in order; on OK all of it was fed or the last reply is a stream end by code or status, *dstlen is exactly the bytes written and they are all that was produced; UNIZIP_STREAM_ERROR exactly when the last reply is a failure by code or status; UNIZIP_MEM_ERROR exactly when more than *dstlen was produced; memory behind the written bytes, and *dstlen on any error, are unchanged; the live set is as before |
| UadkOneShot.DecompressAnswer | src/uadk/unizip_algorithm_uadk.c:457-470 | read off the replies: an error if and only if the last one is a failure by code or status, no earlier reply is one, and the run stops before the source is used up exactly at a reply that used up its window and is a stream end by code or status |
| UadkRoundTrip.DecodingStep | src/uadk/unizip_algorithm_uadk.c:457-468 | no call over a decodable stream, or over a first part of one, fails or emits anything but the next bytes of the plain text |
| UadkRoundTrip.TruncationIsAccepted | src/uadk/unizip_algorithm_uadk.c:451-470 | whatever first part of a decodable stream is given, decompression never fails and, with room for the plain text, returns OK with a first part of it |
| UadkRoundTrip.WholeStreamOutcome | src/uadk/unizip_algorithm_uadk.c:439-473 | the whole of a decodable stream gives the whole plain text and its exact length if and only if it fits, and UNIZIP_MEM_ERROR otherwise |
| UadkRoundTrip.RoundTripOutcome | src/uadk/unizip_algorithm_uadk.c:360-474 | for every non-empty source, every two chunk sizes, schedules of a drained pair and capacity: OK if and only if the capacity is at least the source length, and then the original bytes and the exact length; otherwise UNIZIP_MEM_ERROR |
| UadkRoundTrip.RoundTrip | src/uadk/unizip_callback_uadk.c:239-251 | the same for a caller who compresses and then decompresses, through both inits, under every pattern of refusals; compression succeeds if and only if its init was granted everything and no call failed; the live set is as before |
| UadkRoundTrip.DecompressionNeverFinishes | src/uadk/unizip_algorithm_uadk.c:451-459 | every call of one-shot decompression has input and is not a FINISH, so no tail is appended |
| StoredCodec.StoredPairIsDrained | src/uadk/unizip_algorithm_uadk.c:399-412 | a stored-block encoder and decoder keep the drained contract at every pace, reading ahead included |
| StoredCodec.EncoderCompletes | src/uadk/unizip_algorithm_uadk.c:360-415 | compression with this encoder always returns OK and writes the encoding of the source |
| StoredCodec.TruncatedOutcome | src/uadk/unizip_algorithm_uadk.c:417-474 | the first n bytes of an encoding decompress with OK to the n / 6 bytes whose blocks are complete, if these fit; all of the text comes back if and only if n is at least 6 times its length |
| StoredCodec.EncoderTailExactly | src/uadk/unizip_algorithm_uadk.c:200-207 | the tail that closes a gzip stream of this encoder holds the CRC and length of its input if and only if the encoder was called |
| StoredCodec.StoredRoundTrip | src/uadk/unizip_algorithm_uadk.c:360-474 | with this pair both directions return OK with the original bytes and the exact length, at every pace and chunk size, with nothing assumed of devices |
| StoredCodec.EncoderKeepsContract | src/uadk/unizip_algorithm_uadk.c:223-227 | the device contracts can be met by a device that consumes input before it writes what it owes for it |
| UadkCallback.FeedChunks | src/uadk/unizip_callback_uadk.c:93-116 | the chunk loop hands over the whole input in order in 1 MB chunks and leaves nothing staged |
| UadkCallback.DeflateCB | src/uadk/unizip_callback_uadk.c:72-124 | without a failure next_in and total_in advance by the entry avail_in, next_out and total_out by the bytes copied, tail included; every device call has the room avail_out cut to 256..1 MB and the flush mode of the argument, and avail_out ends as that room less the last output; the return code follows code and status of the last reply; a failing call leaves the stream unchanged |
| UadkCallback.InflateCB | src/uadk/unizip_callback_uadk.c:151-207 | the same with the room cut to 32..1 MB and no tail ever; an empty input is UNIZIP_STREAM_END without a device call and leaves in avail_out what the call before left over |
| UadkCallback.DeviceFlushExactly | src/uadk/unizip_callback_uadk.c:74-78 | NO_FLUSH reaches the device as NO_FLUSH, and FINISH is reached by Z_FINISH or by its own number only |
| UadkCallback.TotalsAdvanceExactly | src/uadk/unizip_algorithm_uadk.c:231-240 | a callback that reached the device advances the totals by what it moved if and only if the device had been called, or the totals were zero, before |
| UadkCallback.RoomLeft | src/uadk/unizip_callback_uadk.c:84-89 | the output chunk is avail_out cut to 256..1048576, and at least as long as any tail, so counting avail_out down does not wrap around |
| UadkCallback.NonEmptyInputNeverAppends | src/uadk/unizip_callback_uadk.c:185-198 | on a non-empty input every device call of a callback has input |
| UadkTrailer.TailShape | src/uadk/unizip_algorithm_uadk.c:183-208 | the tail opens with the empty final stored block of section 3.2.4 of RFC 1951 and has the length of its format |
| UadkTrailer.AdlerSumsAreReduced | src/uadk/unizip_algorithm_uadk.c:195-199 | the Adler-32 sums reduced at every byte are the two sums of section 8.2 of RFC 1950 reduced once |
| UadkTrailer.GzipTrailerExactly | src/uadk/unizip_algorithm_uadk.c:200-207 | CRC32 and ISIZE are those of section 2.3.1 of RFC 1952 for the consumed data if and only if the device was called |
| UadkTrailer.GzipTrailerCountsInput | src/uadk/unizip_algorithm_uadk.c:205-207 | the last four bytes of the gzip trailer, least significant first, are the number of consumed bytes modulo 2^32 |
| UadkTrailer.ZlibTrailerExactly | src/uadk/unizip_algorithm_uadk.c:195-199 | the trailer is the big-endian Adler-32 of section 2.2 of RFC 1950 if and only if the device was called |
| UadkTrailer.EmptySourceHasNoHeader | src/uadk/unizip_algorithm_uadk.c:392-408 | the output for an empty source does not start like a stream of its format |
| UadkTrailer.GzipTailExactly | src/uadk/unizip_algorithm_uadk.c:181-210 | the whole tail of a closed gzip stream is the final block, CRC32 and ISIZE of the consumed data if and only if the device was called |
| UadkTrailer.DeflateCalls | src/uadk/unizip_callback_uadk.c:72-124 | over any run of deflate calls with any pieces, flush arguments and rooms, up to the first failure or tail: the pieces are consumed in order, the output is all that was produced and the tail, and pointers and totals count exactly these bytes |
| UadkTrailer.DeflateSession | test/test_util.cpp:105-117 | pieces with NO_FLUSH, then one FINISH: the same, with exactly one tail over the device's registers |
| UadkTrailer.InflateSession | src/uadk/unizip_callback_uadk.c:151-207 | over any run of inflate calls with any pieces, flush arguments and rooms, up to the first failure: the same, and no tail ever |
| UadkTrailer.CloseThenContinue | src/uadk/unizip_algorithm_uadk.c:231-235 | a stream closed before it has begun and then continued keeps its first tail in the output while total_out does not count it |
| Latched.RunConserves | src/xz/unizip_algorithm_xz.c:170-184 | over any run each latched byte is either still held or was moved, and the totals count what was moved |
| Latched.RunIsContiguous | src/bzip2/unizip_algorithm_bzip2.c:139-164 | over any run input is taken from next_in on without gap or repeat and output put the same way from next_out on |
| Latched.ReadsStayInside | src/zstd/unizip_algorithm_zstd.c:162-186 | if every latched offer lies inside the caller's buffer, no library call may read outside it and total_in plus the remainder stays within its length |
| Latched.FinishAddsNothing | src/xz/unizip_algorithm_xz.c:172-176 | once a byte was consumed, calls with Z_FINISH latch no input whatever avail_in says |
| Latched.Completion | test/test_util.cpp:105-117 | NO_FLUSH until total_in is the length, then FINISH: nothing is held when FINISH starts, the buffer is taken exactly once, next_in ends behind it |
| Latched.CompletionFinishFindsNothing | test/test_util.cpp:105-117 | that caller never finishes with input held |
| Latched.LoopOffersExactly | test/test_util.cpp:105-110 | a loop that offers k > 0 bytes while total_in is short of the length latches only offers inside its buffer, for every library, if and only if k divides the length |
| Latched.LoopEndsAtLength | test/test_util.cpp:105-110 | when that loop ends total_in is exactly the length |
| XzAdapter.XzCtx.XzDeflate | src/xz/unizip_algorithm_xz.c:167-186 | the method is the adapter's step function |
| XzAdapter.XzCtx.XzInflate | src/xz/unizip_algorithm_xz.c:188-205 | the same without the FINISH gate |
| XzAdapter.XzCtx.DeflateCB | src/xz/unizip_callback_xz.c:51-68 | with the copy-in and copy-out around it the caller's stream takes the same step |
| XzAdapter.XzCtx.InflateCB | src/xz/unizip_callback_xz.c:85-102 | the same for inflate |
| XzAdapter.StepRefines | src/xz/unizip_algorithm_xz.c:167-186 | every call, failing ones included, is the latched machine's call: same library call, code, pointers, totals and remainders |
| XzAdapter.RunRefines | src/xz/unizip_algorithm_xz.c:167-205 | the same over any run |
| Bzip2Adapter.SplitTotalsAdd | src/bzip2/unizip_algorithm_bzip2.c:62-65 | adding to the low half with carry adds to the 64-bit total, with its wrap-around |
| Bzip2Adapter.Bzip2Ctx.Bzip2Deflate | src/bzip2/unizip_algorithm_bzip2.c:136-167 | the method is the adapter's step function |
| Bzip2Adapter.Bzip2Ctx.Bzip2Inflate | src/bzip2/unizip_algorithm_bzip2.c:169-194 | the same without the FINISH gate |
| Bzip2Adapter.Bzip2Ctx.DeflateCB | src/bzip2/unizip_callback_bzip2.c:50-68 | with copy-in and copy-out the caller's stream takes the same step |
| Bzip2Adapter.Bzip2Ctx.InflateCB | src/bzip2/unizip_callback_bzip2.c:85-101 | the same for inflate |
| Bzip2Adapter.StepRefines | src/bzip2/unizip_algorithm_bzip2.c:136-194 | every call that does not fail is the latched machine's call |
| Bzip2Adapter.RunRefines | src/bzip2/unizip_algorithm_bzip2.c:136-194 | the same over any run without failures |
| ZstdAdapter.ZstdCtx.ZstdDeflate | src/zstd/unizip_algorithm_zstd.c:158-189 | the method is the adapter's step function |
| ZstdAdapter.ZstdCtx.ZstdInflate | src/zstd/unizip_algorithm_zstd.c:190-215 | the same for inflate |
| ZstdAdapter.ZstdCtx.DeflateCB | src/zstd/unizip_callback_zstd.c:50-67 | with copy-in and copy-out the caller's stream takes the same step |
| ZstdAdapter.ZstdCtx.InflateCB | src/zstd/unizip_callback_zstd.c:84-101 | the same for inflate |
| ZstdAdapter.AgreesExactly | src/zstd/unizip_algorithm_zstd.c:164-177 | a call is the latched machine's call if and only if it is not a FINISH with input to hand over and ends only on FINISH |
| ZstdAdapter.StepRefines | src/zstd/unizip_algorithm_zstd.c:158-215 | on those calls state, totals, remainders and at the stream end the caller's pointers agree |
| ZstdAdapter.RunRefines | src/zstd/unizip_algorithm_zstd.c:158-215 | the same over any run without failures in which FINISH finds nothing held |
| ZstdAdapter.RunAgreesExactly | src/zstd/unizip_algorithm_zstd.c:158-189 | over any compressing run without failures the library calls and codes are those of the latched machine if and only if FINISH never finds input held |
| AdapterRuns.AllAgree | src/zstd/unizip_algorithm_zstd.c:158-189 | for the same library choices xz, bzip2 and zstd make the same library calls and end with the same codes, totals, remainders and final pointers |
| AdapterRuns.AgreeExactly | src/zstd/unizip_algorithm_zstd.c:164-177 | over any compressing run without failures xz and bzip2 make the same library calls, and zstd makes them too if and only if FINISH never finds input held |
| AdapterRuns.OnlyFinishMatters | src/bzip2/unizip_algorithm_bzip2.c:138 | all three encoders are told to finish by the flush argument 4 and by no other, and every other argument acts like 0 |
| AdapterRuns.LibraryIsReported | src/xz/unizip_algorithm_xz.c:180-185 | in any state a failing library call is answered with its code by all three, a stream end with UNIZIP_STREAM_END (by zstd's encoder only on FINISH), and all else with OK; with bzip2 and zstd a failure leaves the caller's stream alone |
| AdapterRuns.CompletionForAll | test/test_util.cpp:105-117 | for a caller who feeds a buffer with offers inside it and then finishes, all three take exactly the buffer, in order, and end with total_in and next_in at its end |
| AdapterRuns.TestCallerCompletes | test/test_util.cpp:105-117 | the same for the loop of the tests, with nothing assumed of its offers but that their size divides the length |
| AdapterRuns.FinishFirstLosesInput | src/zstd/unizip_algorithm_zstd.c:164-187 | a zstd stream that starts with FINISH ends without showing the library its input; xz and bzip2 hand it over |
| BrotliAdapter.BrotliCtx.BrotliDeflate | src/brotli/unizip_algorithm_brotli.c:88-117 | the method is the adapter's step function |
| BrotliAdapter.BrotliCtx.BrotliInflate | src/brotli/unizip_algorithm_brotli.c:153-175 | the same for inflate |
| BrotliAdapter.BrotliCtx.DeflateCB | src/brotli/unizip_callback_brotli.c:44-61 | with copy-in and copy-out the caller's stream takes the same step |
| BrotliAdapter.BrotliCtx.InflateCB | src/brotli/unizip_callback_brotli.c:77-94 | the same for inflate |
| BrotliAdapter.RunConserves | src/brotli/unizip_algorithm_brotli.c:88-175 | over any run avail plus pointer, and avail plus total, change only by what the caller adds, and the encoder's own count stays total_out |
| BrotliAdapter.LibraryMoves | src/brotli/unizip_algorithm_brotli.c:88-175 | a call that reaches the library moves the pointers by what it consumed and produced; a refused flush argument or a decided decoder moves nothing |
| BrotliAdapter.EncoderEndsExactly | src/brotli/unizip_algorithm_brotli.c:94-116 | in any run a call returns UNIZIP_STREAM_END if and only if it is a FINISH that leaves no input and after which the encoder holds no output; other flush arguments than FINISH and NO_FLUSH are refused |
| BrotliAdapter.DecoderDecidesOnce | src/brotli/unizip_algorithm_brotli.c:158-174 | in a run from init every call up to the one in which the decoder answers success or error returns OK; after it no call moves a pointer or a total, and each returns UNIZIP_ERRNO after an error, and after a success UNIZIP_STREAM_END or OK as the decoder has finished or not |
| BrotliAdapter.DecidedIsFinal | src/brotli/unizip_algorithm_brotli.c:158-174 | once the decoder has reported success or an error no later inflate moves a pointer or a total |

## Left out

- The compression libraries and the device itself are not part of this model: only their step contracts are.
- The numeric values of the `WCRYPTO_*` and `WD_*` constants (wd.h and wd_comp.h are not part of this model): statuses and the two negated error constants are symbolic, and nothing is assumed of the numbers of the device's flush modes. A flush argument the callbacks do not translate means the mode whose number it happens to be, so it may append a tail where that is WCRYPTO_FINISH; any other one is passed on as `Untranslated`.
- NULL checks of src, dst and zstrm: sequences and non-null references have no such value.
- UadkOneShot.StreamCompress: for a non-empty source it requires a chunk size other than 0, because with 0 the source never shrinks and the loop ends only if the device fails, and one of at most 1 MB, because the chunk and the device's output are written to blocks of that size without a check.
- UadkOneShot.StreamDecompress: for a non-empty source it requires a chunk size of at most 1 MB for the same reason.
- The capacity of the caller's dst in compression and in the callbacks: the source does not check it, so the bytes copied there are a sequence without a bound.
- 64-bit wrap-around of `total_in` and `total_out` in zip_stream, of zstd's buffer sizes, and of the int `have`: far beyond any buffer; the adapters' totals do wrap around at 2^64.
- `deflateInitCB_uadk` and its siblings: the zip_stream they allocate is not among the modelled resources, and nothing in these files releases it.
- The action `xz_inflate` passes on and the operation the brotli encoder is given: only the three latched encoders' FINISH is recorded.
- The error-code switches of the adapters: a failing library call carries the unified code it maps to.
- Any step after a stream end or, for bzip2 and zstd, after a failure: the refinement speaks about runs up to there.
- The copy, reset and end functions, one-shot compress and uncompress of xz, bzip2, zstd and brotli, level and parameter handling, bounds computed in floating point, version strings.
- `src/unizip_adapt.c`, zlib, gzip, 7zip, lz4 and snappy: table lookups, pass-throughs and one-shot calls that would only add easy members.
