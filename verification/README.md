# Verified model of the core of MojoProse

This project models, in Dafny, the parts of the repository where being right is hardest, and proves what
they promise for every input, every run or every reachable state:

- **The asynchronous logger**: the sequence-number ring buffer, the copy of string arguments into per-slot
  arenas, and the protocol of any number of producers, flushers, the consumer thread and the destructor
  (`StringArena`, `MpscRing`, `Logger`, `LoggerInvariant`, `LoggerTheorems`, `LoggerRuns`).
- **Infinite-precision integers and rationals**: fixed-width words, the widths the operations choose, Euclid's
  algorithm, exponentiation, canonical fractions (`FixedWidth`, `IPInt`, `CutWidth`, `Euclid`,
  `IPRational`, `CutWidthRational`).
- **The compilation cache**: URL-safe base64 names, the binary form of diagnostics and the entry's frame, and the
  chain of memory and file levels, for calls one after another and for calls at the same time (`Base64`, `DiagnosticCodec`,
  `BlobCache`, `BlobCacheTheorems`, `BlobCacheBackend`, `BlobCacheThreads`, `BlobCacheRuns`, `BlobCacheAlone`).
- **The external profiler's master switch** and its lazily loaded shim (`ProfilerSwitch`, `ProfilerTheorems`).
- **The decisions of the Haiku bridge generator**: overload selection, ancestors, the bases-first order, the
  inherited tables of all classes, and the guard in the shadow classes (`Overloads`, `ClassOrder`, `BridgeOrder`,
  `BridgeEmission`, `HookDepth`).
- **Target features**: the textual codec and the satisfaction relation (`FeatureCodec`, `FeatureTheorems`,
  `TargetRequirements`).

`Arithmetic` and `Wrappers` hold what several modules share. `dafny verify dfyconfig.toml` checks everything.

## How the code is modelled

Concurrent code is a state machine: one step per atomic access or lock operation, every interleaving of any
number of threads, all accesses sequentially consistent. For the cache a step is one access to one level. Ring positions are unbounded, so the wrap-around of
`size_t` does not occur. A `memcpy` of one argument, the store of a record into its slot and the rendering of a
record are single steps; `FrontIsStable` and `SlotsAreExclusive` show that the slot they use cannot change meanwhile.

Objects that are updated in place are classes or methods on arrays, specified by functions on their contents:
`Backend` (the cache chain), `Buffer` (the byte writer), `Planner` (the emission order), `Counter` (the hook guard), the
arena of a slot. Loops are loops.

What the code takes from elsewhere is a parameter: the content hash is any function to 16 bytes; printing and parsing
of locations are any two functions that are inverse to each other; the reading of a target triple is any function with the few
facts named in `TargetRequirements.Sane`; the environment, the dynamic loader and the shim answer anything.
LLVM's base64 is section 4 of RFC 4648.

## Where the code does not do what its text says

The lemmas named give the failing case and the exact condition.

- A ring of capacity one passes the power-of-two assertion and then hands out a slot that still holds an unread item
  (`CapacityOneOverwrites`); from capacity two on this cannot happen (`UnreleasedSlotIsProtected`).
- A `log` call that begins after the stop flag is set can be lost (`LateCallIsLost`). Nothing is lost if and only if nothing is
  claimed after the consumer's exit test last reads the claim count (`LostOnlyAfterLastCount`), and without late calls nothing
  is (`NothingLostAtExit`). Claims can be ahead of the consumer count by one more than the capacity
  (`BacklogReachesBound`), between the two stores of `consume` and never by more (`BacklogIsBounded`).
- The shutdown line can miss a call: a dropped one, which leaves the in-flight count before it is counted (`SummaryMissesDrop`),
  and one that begins after the stop flag, even if it has returned (`SummaryMissesLateCall`). It adds up if and only if every
  claimed record was written and no call is undecided when the destructor reads the drop count (`ShutdownSummaryIsExact`); without
  late calls, if and only if every call has returned (`ShutdownSummaryWithoutLateCalls`).
- Sums, differences, products and quotients compute their working width as a 32-bit sum. In range they are exact
  (`InRangeIsExact`); 2^(2^31) plus itself comes out as 0 and its neighbours divide wrongly (`LargeSumIsWrong`,
  `LargeQuotientIsWrong`). `CodePlusExactIff`, `CodeMinusExactIff`, `CodeTimesExactIff` and `CodeDivideExactIff` say exactly when
  each is right.
- Shifts cut their working width in the same way. A left shift is exact if and only if the number is zero or width plus amount
  stay below 2^32 (`ShiftLeftExactIff`); a right shift of a number of at most 32 bits by a multiple of 2^32
  returns the number (`ShiftRightLosesAmount`). In general a right shift is exact if and only if the cut width and amount lead to the
  right bits (`ShiftRightExactIff`); by at least the number's width, if and only if what is left of the number keeps its sign and is
  shifted out (`LongShiftRightExactIff`).
- The integer constructor from `uint64_t` reads the bits as signed (`FromUint64Exact`).
- The gcd can be negative (`GcdCanBeNegative`): its sign is that of the first or the second argument, by the parity of the number
  of rounds (`GcdSign`). The rational constructor is right nevertheless (`ReduceIsCanonical`).
- The backend's header expects an insert to overwrite on a collision. A file level that has the key, or whose delegates have it,
  keeps the old blob (`FilesDoNotOverwrite`); a lookup sees the new blob if and only if `InsertShows` held before
  (`InsertThenFind`). A lookup fails if and only if the topmost level with the key has a file that is no blob followed by its hash (`FindSyncIff`), and
  after an insert of any blob if and only if only file levels without the key stand above a damaged one (`CorruptAfterInsertIff`).
- A comment says the cached shim pointer is set after the override has been forwarded. It is set before, so after
  `setEnabled(true)` another thread can emit through a shim whose flag is still off (`PublishedBeforeForward`); the flags differ only while the
  forwarding thread holds the mutex (`DisagreeOnlyInsideForward`).
- `hasFeature` finds a name that a later token switches off (`LookupIgnoresLastWord`, `LookupAgrees`).
- A name without a version counts as version 0 of itself, so a required arch `sm` is met by every `sm_N`, and `sm` meets `sm_0`
  (`ArchIff`); every other unversioned arch is met only by itself.
- Target features are matched first-wins, so an older version put in front breaks a requirement that held
  (`PrependCanBreak`, `PrependKeepsIff`).

## Model

| member | source | states |
|---|---|---|
| StringArena.ClippedText | Support/lib/Log.cpp:489-509 | the strings a record keeps, concatenated, are the first min(total, 256) bytes of the original strings concatenated |
| StringArena.ClipKeepsPrefixes | Support/lib/Log.cpp:499-508 | every string keeps a prefix of itself, other arguments are untouched, nothing is cut if everything fits |
| StringArena.CopyOne | Support/lib/Log.cpp:494-509 | one round of the copy loop leaves all earlier views intact and makes the new one resolve to the clipped argument |
| StringArena.CopyBytes | Support/lib/Log.cpp:501 | the copy changes exactly the bytes from start to start + n |
| StringArena.CopyStrings | Support/lib/Log.cpp:492-509 | whatever an earlier lap left in the arena, following the stored views afterwards gives the clipped arguments |
| Arithmetic.MaskIsModulo | Support/include/Support/MpscRingBuffer.h:84 | masking a position with capacity - 1 is the remainder modulo a power-of-two capacity |
| MpscRing.NewRingValid | Support/include/Support/MpscRingBuffer.h:67-74 | a new ring with capacity at least two satisfies the lap invariant with nothing claimed |
| MpscRing.ProbeTellsTruth | Support/include/Support/MpscRingBuffer.h:84-95 | "claimable" bounds the position to the current lap, "full" is answered exactly when every slot is taken |
| MpscRing.ClaimKeepsValid | Support/include/Support/MpscRingBuffer.h:88-90 | a claim keeps the lap invariant and holds exactly the new position |
| MpscRing.PublishKeepsValid | Support/include/Support/MpscRingBuffer.h:104-106 | publishing keeps the lap invariant and gives up exactly that position |
| MpscRing.FrontIsPublished | Support/include/Support/MpscRingBuffer.h:111-118 | the consumer sees an item if and only if the oldest position is claimed and published |
| MpscRing.ReleaseKeepsValid | Support/include/Support/MpscRingBuffer.h:126-130 | releasing the front moves the lap window on by one and keeps the invariant |
| MpscRing.CapacityOneOverwrites | Support/include/Support/MpscRingBuffer.h:67-97 | with capacity one an unread item's slot is claimable again |
| MpscRing.UnreleasedSlotIsProtected | Support/include/Support/MpscRingBuffer.h:81-97 | from capacity two on, the slot of an unreleased position is never claimable |
| LoggerInvariant.InitInv | Support/lib/Log.cpp:455-460 | every initial state satisfies the protocol invariant |
| LoggerInvariant.ProducerKeeps | Support/lib/Log.cpp:479-515 | every atomic step of a log call keeps the invariant |
| LoggerInvariant.StepKeeps | Support/lib/Log.cpp:462-563 | every atomic step of any producer, the consumer, any flusher and the destructor keeps the invariant |
| LoggerInvariant.RunInv | Support/lib/Log.cpp:462-563 | every state of every run satisfies the invariant |
| LoggerTheorems.NothingLostAtExit | Support/lib/Log.cpp:522-545 | at the consumer's exit every sink has exactly the records claimed before the exit test read the claim count, in claim order, clipped as specified, all flushed; without late calls that is every record |
| LoggerTheorems.LastCount | Support/lib/Log.cpp:529-532 | the count the consumer exits with is what its exit test read last, and the step where it was read |
| LoggerTheorems.LostOnlyAfterLastCount | Support/lib/Log.cpp:522-545 | the sinks hold exactly what was claimed up to that step: nothing is lost if and only if nothing is claimed after it |
| LoggerTheorems.CallsAreConserved | Support/lib/Log.cpp:479-515 | in every state calls begun = claimed + dropped + still undecided; after the consumer's exit and without late calls, once all calls have returned, calls = written + dropped |
| LoggerTheorems.ShutdownSummaryIsExact | Support/lib/Log.cpp:462-475 | when the destructor reads the drop count, its two numbers add up to all calls if and only if every claimed record was written and no call is undecided; the first is the records in every sink |
| LoggerTheorems.ShutdownSummaryWithoutLateCalls | Support/lib/Log.cpp:462-475 | without calls begun after the stop flag, they add up if and only if every log call has returned |
| LoggerTheorems.FrontIsStable | Support/lib/Log.cpp:524-527 | while the consumer reads the front slot, its record and arena bytes are what that position's producer left |
| LoggerTheorems.SlotsAreExclusive | Support/lib/Log.cpp:487-513 | no two calls hold one slot, and none holds the slot the consumer reads |
| LoggerTheorems.DroppedOnlyWhenFull | Support/lib/Log.cpp:481-486 | a call is dropped only at a moment when every slot of the ring is taken |
| LoggerTheorems.BacklogIsBounded | Support/include/Support/MpscRingBuffer.h:126-140 | claimed minus consumed is at most the capacity, plus one only between the two stores of consume |
| LoggerTheorems.HistoryGrows | Support/include/Support/MpscRingBuffer.h:81-97 | over a run claimed records are only ever appended |
| LoggerTheorems.FlushedOnReturn | Support/lib/Log.cpp:547-563 | when flush returns, every record claimed before its count was read is in every sink, in order, and flushed there |
| LoggerTheorems.FlushOutcome | Support/lib/Log.cpp:547-563 | a flush call that is over was skipped if and only if the destructor had joined the consumer by the call's first test; otherwise every record claimed before that test is in every sink, in order, and flushed |
| LoggerTheorems.SkippedFindsAllFlushed | Support/lib/Log.cpp:548-549 | the test that skips a call finds the consumer gone and every sink holding, flushed, exactly what was claimed before the exit test read the claim count |
| LoggerTheorems.IdleFlushesAll | Support/lib/Log.cpp:529-543 | a consumer that found nothing to do looks again only after every sink has flushed all that was consumed |
| LoggerTheorems.FlushMovesOn | Support/lib/Log.cpp:547-563 | in every state of every run each step of a flush call brings it nearer its end, unless it waits for a record that is not consumed |
| LoggerTheorems.ConsumerMovesOn | Support/lib/Log.cpp:522-545 | the consumer's loops over the sinks end |
| LoggerRuns.FlushComesBack | Support/lib/Log.cpp:547-563 | from every state with everything published and the consumer looking and not joined, a flush call can be made and return with the claim count as its target |
| LoggerRuns.InitialState | Support/include/Support/MpscRingBuffer.h:67-74 | there is an initial state for every capacity from two on and any number of sinks, producers and flushers |
| LoggerRuns.LateCallIsLost | Support/lib/Log.cpp:479-545 | a run in which a call that begins after the stop flag claims a slot nobody reads |
| LoggerRuns.FillRing | Support/lib/Log.cpp:479-515 | from every initial state a run in which one producer fills the ring |
| LoggerRuns.BacklogReachesBound | Support/include/Support/MpscRingBuffer.h:126-140 | for every capacity a run in which the claims are ahead by capacity plus one |
| LoggerRuns.SummaryMissesDrop | Support/lib/Log.cpp:462-486 | for every capacity a run whose shutdown line leaves out a dropped call |
| LoggerRuns.SummaryMissesLateCall | Support/lib/Log.cpp:462-515 | a run whose shutdown line says 0 and 0 although one call, begun after the stop flag, was made and has returned |
| FixedWidth.SignificantBits | Support/include/Support/IPInt.h:43 | the fewest bits that hold the value: it fits in them and in no fewer |
| FixedWidth.TruncateIsWrap | Support/lib/IPInt.cpp:71-72 | truncating a word is taking its signed value modulo the new width |
| FixedWidth.SaturationIdle | Support/lib/IPInt.cpp:76-81 | saturating sums and differences are exact when the true result fits |
| FixedWidth.SaturationIdleMul | Support/lib/IPInt.cpp:82-84 | a saturating product is exact when the true product fits |
| IPInt.Trim | Support/include/Support/IPInt.h:43 | trimming keeps the value and gives the minimum width |
| IPInt.FromUint64Exact | Support/include/Support/IPInt.h:45-48 | the constructor from uint64_t keeps the value if and only if it is below 2^63 |
| IPInt.EqualIsValueEquality | Support/lib/IPInt.cpp:111-114 | same width and same bits if and only if same value |
| IPInt.CmpIsValueOrder | Support/lib/IPInt.cpp:22-41 | the four comparisons are the order of the values, whatever the widths |
| IPInt.Plus | Support/lib/IPInt.cpp:43-79 | the saturating sum at the full width sum, which CutWidth.InRangeIsExact ties to the code, is the exact sum |
| IPInt.Minus | Support/lib/IPInt.cpp:43-81 | the same for the difference |
| IPInt.Times | Support/lib/IPInt.cpp:43-84 | the same for the product |
| IPInt.Divide | Support/lib/IPInt.cpp:85-87 | the same for the quotient rounded toward zero, without overflow for any operands |
| IPInt.Modulo | Support/lib/IPInt.cpp:88-90 | the remainder with the dividend's sign |
| IPInt.ShiftLeftExact | Support/lib/IPInt.cpp:56-61 | in the range of unsigned a left shift multiplies by the power of two |
| IPInt.ShiftRightExact | Support/lib/IPInt.cpp:94-96 | in that range a right shift is floor division by the power of two |
| IPInt.ShiftLeftExactIff | Support/lib/IPInt.cpp:56-93 | a left shift is exact if and only if the number is zero or width + amount < 2^32 |
| IPInt.ShiftRightExactIff | Support/lib/IPInt.cpp:56-96 | a right shift is floor division if and only if every bit of the result is read from a bit of the right value, at the cut width and amount |
| IPInt.LongShiftRightExactIff | Support/lib/IPInt.cpp:56-96 | a shift by at least the number's width is exact if and only if what is left of the number has its sign and is shifted out by what is left of the amount |
| IPInt.ShiftRightLosesAmount | Support/lib/IPInt.cpp:56-96 | by a multiple of 2^32 a number of up to 32 bits comes back unshifted, right only for 0 and -1 |
| IPInt.LogicIsBitwise | Support/lib/IPInt.cpp:97-105 | on the infinite two's complement forms, bit k of and, or, xor is set if and only if both, at least one, exactly one of the operands' bits k are |
| CutWidth.InRangeIsExact | Support/lib/IPInt.cpp:47-87 | while the widths add up to less than 2^32 the code computes exactly Plus, Minus, Times and Divide |
| CutWidth.CodePlusExactIff | Support/lib/IPInt.cpp:50-78 | at the cut width a sum is exact if and only if it, and the sum of what is left of the operands, fit |
| CutWidth.CodeMinusExactIff | Support/lib/IPInt.cpp:50-81 | the same for differences |
| CutWidth.CodeTimesExactIff | Support/lib/IPInt.cpp:50-84 | a product is exact if and only if the widths are in range or a factor is zero |
| CutWidth.CodeDivideExactIff | Support/lib/IPInt.cpp:50-87 | a quotient is exact if and only if the true one divides what is left of the operands and fits, or both are the least number by overflow |
| CutWidth.ZeroQuotientExactIff | Support/lib/IPInt.cpp:50-87 | a quotient of a smaller by a larger number is exact if and only if what is left of them is in that order too |
| CutWidth.LargeSumIsWrong | Support/lib/IPInt.cpp:50-78 | 2^(2^31) plus itself comes out as 0 |
| CutWidth.LargeQuotientIsWrong | Support/lib/IPInt.cpp:50-87 | nothing is left of the divisor 2^(2^31), and (2^(2^31) + 4) / (2^(2^31) + 1) comes out as 4 |
| Euclid.GcdCanBeNegative | Support/lib/IPInt.cpp:165-176 | one case: the gcd of -2 and -4 comes out as -2 |
| Euclid.GcdSign | Support/lib/IPInt.cpp:165-176 | for all arguments the magnitude is the gcd of the magnitudes, and the sign is the first argument's after an even number of rounds, the second's after an odd one |
| Euclid.Bezout | Support/lib/IPInt.cpp:165-176 | the gcd is an integer combination of its arguments |
| Euclid.GcdDivides | Support/lib/IPInt.cpp:165-176 | the gcd divides both arguments |
| Euclid.GcdIsGreatest | Support/lib/IPInt.cpp:165-176 | every common divisor divides it, and it is zero only if both arguments are |
| Euclid.Gcd | Support/lib/IPInt.cpp:165-176 | the loop on integers computes the signed gcd of the values |
| Euclid.ParityTest | Support/lib/IPInt.cpp:188 | and with 1 is the remainder by 2 for a nonnegative number |
| Euclid.PowerMagnitude | Support/lib/IPInt.cpp:183-190 | a power is 1, alternates, or has magnitude at least 2, which is why the negative-exponent cases are right |
| Euclid.NegativePower | Support/lib/IPInt.cpp:183-190 | for a negative exponent the result is 1 divided by the power, rounded toward zero |
| Euclid.SquareAndMultiply | Support/lib/IPInt.cpp:193-201 | the squaring loop computes the power |
| Euclid.Exponentiate | Support/lib/IPInt.cpp:180-202 | both cases together, for every base and exponent the assertion admits |
| IPRational.MakeReduces | Support/lib/IPRational.cpp:38-49 | the constructor's fields are the reduced quotient of the values |
| IPRational.Construct | Support/lib/IPRational.cpp:38-49 | the constructor with the gcd loop computes that rational |
| IPRational.ReduceIsCanonical | Support/lib/IPRational.cpp:42-48 | for any signs the result has a positive denominator, is in lowest terms and has the same cross product, also when the gcd is negative |
| IPRational.MakeIsCanonical | Support/lib/IPRational.cpp:38-49 | the same on the integers themselves |
| IPRational.EqualIffCrossProducts | Support/lib/IPRational.cpp:107-110 | canonical rationals are equal field by field if and only if the cross products are |
| IPRational.EqualIsValue | Support/lib/IPRational.cpp:107-110 | and if and only if they are the same number |
| IPRational.AddExact | Support/lib/IPRational.cpp:94-95 | addition is exact and canonical |
| IPRational.SubExact | Support/lib/IPRational.cpp:96-97 | subtraction is exact and canonical |
| IPRational.MulExact | Support/lib/IPRational.cpp:98-99 | multiplication is exact and canonical |
| IPRational.DivExact | Support/lib/IPRational.cpp:100-102 | division by a nonzero rational is exact and canonical |
| IPRational.CmpIsRationalOrder | Support/lib/IPRational.cpp:70-83 | the four comparisons, built from one cross multiplication and equality, are the order of the numbers |
| IPRational.LessIsStrictTotalOrder | Support/lib/IPRational.cpp:107-125 | less-than is a strict total order whose equality is == |
| CutWidthRational.CodeMakeIsMake | Support/lib/IPRational.cpp:38-49 | the constructor over the code's operators, at cut widths, is the exact one while the widths leave room for its divisions |
| CutWidthRational.CodeAddIsAdd | Support/lib/IPRational.cpp:94-97 | sum and difference over the code's operators are the exact ones while twice the operands' widths, and 2, stay below 2^32 |
| CutWidthRational.CodeMulIsMul | Support/lib/IPRational.cpp:98-99 | the same for products |
| CutWidthRational.CodeDivIsDiv | Support/lib/IPRational.cpp:100-102 | the same for quotients |
| CutWidthRational.CodeGreaterIsGreater | Support/lib/IPRational.cpp:70-83 | the same for the cross multiplication under all four comparisons |
| CutWidthRational.CodeSquareAndMultiply | Support/lib/IPInt.cpp:193-201 | the squaring loop over the code's operators computes the power while twice the base's width times the exponent, and 4, stay below 2^32 |
| CutWidthRational.CodeExponentiate | Support/lib/IPInt.cpp:180-202 | the same for both signs of the exponent |
| Base64.StandardRoundTrip | Support/lib/Base64.cpp:30-55 | decoding the standard encoding gives the bytes back |
| Base64.UrlBody | Support/lib/Base64.cpp:29-40 | the unpadded URL-safe form uses only its alphabet and is nonempty for nonempty input |
| Base64.BodyTranslates | Support/lib/Base64.cpp:31-47 | replacing characters turns the standard body into the URL-safe one and back |
| Base64.ReplaceIn | Support/lib/Base64.cpp:31-32 | the in-place replacement changes exactly that character |
| Base64.StripPadding | Support/lib/Base64.cpp:33-38 | the bounded loop removes exactly the padding, because the alphabet has no equals sign |
| Base64.EncodeURLSafeBase64 | Support/lib/Base64.cpp:29-40 | encode, replace and strip gives the unpadded URL-safe form |
| Base64.UrlRoundTrip | Support/lib/Base64.cpp:29-60 | decoding the URL-safe form gives the bytes back |
| Base64.DecodeURLSafeBase64 | Support/lib/Base64.cpp:44-60 | replace, pad and decode is the decoder, errors included, and undoes every encoding |
| Base64.UrlInjective | Cache/lib/BlobCache.cpp:529-541 | two keys have the same file name if and only if they are equal |
| Base64.UrlMeaning | Support/lib/Base64.cpp:29-40 | the URL-safe text is written with table 2 of RFC 4648, has the fewest digits that hold the bits, and read in base 64 is the bytes read in base 256, filled up with zero bits |
| Base64.UrlCharIsTabled | Support/lib/Base64.cpp:31-32 | the alphabet after the replacement is that table |
| Base64.ValueIff | Support/lib/Base64.cpp:55 | a character decodes to a value if and only if it is that value's character; the alphabet's characters are the ones that decode |
| Base64.DecodesIff | Support/lib/Base64.cpp:49-60 | the standard decoder accepts exactly whole groups of alphabet characters, the last with up to two pads |
| DiagnosticCodec.DecodeAll | Cache/lib/CachedTransform.cpp:125-185 | on any bytes the decoder terminates, stays inside the data, and on success has consumed at least 8 bytes plus 27 per node |
| DiagnosticCodec.DecodesAll | Cache/lib/CachedTransform.cpp:102-185 | an encoded forest of any depth is decoded to itself wherever it stands, and what follows is untouched |
| DiagnosticCodec.DecodesOne | Cache/lib/CachedTransform.cpp:115-183 | the same for one diagnostic with its notes |
| DiagnosticCodec.TextBytes | Cache/lib/CachedTransform.cpp:107-111 | byte for byte: a text is its length in eight bytes, least significant first, the text and a zero byte |
| DiagnosticCodec.OneLayout | Cache/lib/CachedTransform.cpp:115-120 | severity, location, message and notes of a diagnostic stand at these offsets and fill the encoding |
| DiagnosticCodec.EachLayout | Cache/lib/CachedTransform.cpp:113-121 | a list is the number of its diagnostics and then these one after the other without gaps |
| DiagnosticCodec.EncodeDiagnostics | Cache/lib/CachedTransform.cpp:102-121 | the recursive writer appends exactly the forest's encoding |
| DiagnosticCodec.DecodeDiagnostics | Cache/lib/CachedTransform.cpp:125-195 | the counted loop with its moving cursor is the decoder |
| DiagnosticCodec.DecodeDiagnostic | Cache/lib/CachedTransform.cpp:154-182 | one round of that loop, with every error exit |
| DiagnosticCodec.WriteEntry | Cache/lib/CachedTransform.cpp:283-299 | a miss stores bytecode, diagnostics and the bytecode size |
| DiagnosticCodec.EntryRoundTrip | Cache/lib/CachedTransform.cpp:283-336 | a hit on what a miss wrote recovers exactly the bytecode and the diagnostics in order |
| DiagnosticCodec.HitIff | Cache/lib/CachedTransform.cpp:306-336 | a hit succeeds with this bytecode and these diagnostics if and only if the entry starts with the bytecode, the diagnostics decode behind it and the last eight bytes are the bytecode's size |
| BlobCache.InsertedIsContained | Cache/lib/BlobCache.cpp:139-148 | after an insert the chain has the key if and only if it had it or some level can be written |
| BlobCache.InsertIsIdempotent | Cache/lib/BlobCache.cpp:139-148 | inserting the same blob again changes nothing on any chain |
| BlobCache.AsyncInsertIsSync | Cache/lib/BlobCache.cpp:105-166 | the asynchronous insert, which visits lower levels repeatedly, leaves the same chain as the synchronous one |
| BlobCache.AsyncContainsIsSync | Cache/lib/BlobCache.cpp:168-231 | the asynchronous membership test gives the same answer |
| BlobCache.AsyncFindIsSync | Cache/lib/BlobCache.cpp:233-328 | the asynchronous lookup gives the same answer, errors included, and the same chain |
| BlobCache.FindHereIsTruth | Cache/lib/BlobCache.cpp:469-527 | a level that stores only intact true blobs answers them and never reports damage |
| BlobCache.InsertHereKeepsTruth | Cache/lib/BlobCache.cpp:385-449 | storing a key's own blob keeps every key's truth: no two keys share a file |
| BlobCache.InsertAgrees | Cache/lib/BlobCache.cpp:139-148 | write-through keeps all levels in agreement and touches no other key |
| BlobCache.ContainsAgreesWithFind | Cache/lib/BlobCache.cpp:203-309 | lookup says absent if and only if the membership test does, on any chain, damaged or not |
| BlobCache.FindIsTopmost | Cache/lib/BlobCache.cpp:284-309 | the answer is that of the topmost level that has the key |
| BlobCache.FindHereIff | Cache/lib/BlobCache.cpp:469-527 | a level answers v if and only if it stores exactly v, a file exactly v followed by its hash; it fails if and only if it has a file that is v followed by its hash for no v |
| BlobCache.FindSyncIff | Cache/lib/BlobCache.cpp:284-309 | on any chain a lookup answers v, fails or finds nothing if and only if the topmost level that has the key stores exactly v, is damaged, or does not exist |
| BlobCache.FillingIsInsert | Cache/lib/BlobCache.cpp:284-309 | on any chain a hit below the head leaves what an insert of the found blob would leave; any other lookup changes nothing |
| BlobCacheTheorems.InsertRefines | Cache/lib/BlobCache.cpp:139-148 | on an agreeing chain an insert adds exactly its key, and only if some level can be written |
| BlobCacheTheorems.FindRefines | Cache/lib/BlobCache.cpp:284-309 | on an agreeing chain a lookup answers the one blob without error and its filling changes no membership |
| BlobCacheTheorems.CallRefines | Cache/lib/BlobCache.cpp:105-328 | each call, synchronous or not, is one call on a plain map |
| BlobCacheTheorems.RunRefinesMap | Cache/lib/BlobCache.cpp:105-449 | if every key has one blob, the replies of any run on any chain are those of one plain map |
| BlobCacheTheorems.FillingIsInvisible | Cache/lib/BlobCache.cpp:301-305 | read-through filling changes no reply of any later run |
| BlobCacheTheorems.InsertThenFind | Cache/lib/BlobCache.cpp:385-401 | with clashing inserts, a lookup sees the new blob if and only if the topmost deciding level takes it |
| BlobCacheTheorems.FilesDoNotOverwrite | Cache/include/Cache/BlobCache.h:48-50 | a file level that has the key keeps the old blob, against the header's expectation |
| BlobCacheTheorems.DamageStays | Cache/lib/BlobCache.cpp:385-513 | a file that is no blob followed by its hash, under file levels without the key, is contained, fails lookup, and still does after any insert, on any chain |
| BlobCacheTheorems.FilesKeepTheirBlob | Cache/lib/BlobCache.cpp:385-393 | an insert leaves a file level that has the key as it is, wherever it stands in the chain |
| BlobCacheTheorems.CorruptAfterInsertIff | Cache/lib/BlobCache.cpp:385-513 | after an insert of any blob a lookup fails if and only if a damaged level has nothing above it but file levels without the key |
| BlobCacheBackend.Backend.AppendDelegate | Cache/lib/BlobCache.cpp:330-335 | the new chain is the old one followed by the delegate's |
| BlobCacheBackend.Backend.ContainsSync | Cache/lib/BlobCache.cpp:203-214 | the linked objects answer as the chain function |
| BlobCacheBackend.Backend.InsertSyncImpl | Cache/lib/BlobCache.cpp:345-449 | the backend's own store becomes what the level function says, asking the whole chain first |
| BlobCacheBackend.Backend.InsertSync | Cache/lib/BlobCache.cpp:139-148 | the linked objects change as the chain function says |
| BlobCacheBackend.Backend.FindSync | Cache/lib/BlobCache.cpp:284-309 | the linked objects answer what the topmost level with the key stores, or fail if its file is damaged, and change as the chain function says |
| BlobCacheBackend.Backend.Insert | Cache/lib/BlobCache.cpp:105-137 | the asynchronous insert on objects is the function with repeated visits |
| BlobCacheBackend.Backend.Contains | Cache/lib/BlobCache.cpp:168-201 | the asynchronous membership test on objects is the function |
| BlobCacheBackend.Backend.Find | Cache/lib/BlobCache.cpp:233-282 | so do they when asked asynchronously, with repeated visits |
| BlobCacheThreads.InsertKeeps | Cache/lib/BlobCache.cpp:105-148 | every step of an insert, in any interleaving, keeps all levels in agreement, loses no key and keeps what other calls rely on |
| BlobCacheThreads.FindKeeps | Cache/lib/BlobCache.cpp:233-309 | every step of a lookup keeps the invariant: it never errs and cannot miss a key that was there when it began |
| BlobCacheThreads.ContainsKeeps | Cache/lib/BlobCache.cpp:168-231 | the same for a membership test |
| BlobCacheThreads.StepKeeps | Cache/lib/BlobCache.cpp:105-328 | every step of any number of simultaneous calls keeps the invariant, and the chain only grows |
| BlobCacheRuns.LevelsAgree | Cache/lib/BlobCache.cpp:105-449 | with one blob per key every interleaving keeps every level in agreement |
| BlobCacheRuns.LevelsGrow | Cache/lib/BlobCache.cpp:105-449 | no key is ever lost and levels keep their kind |
| BlobCacheRuns.InsertIsThere | Cache/lib/BlobCache.cpp:105-148 | when an insert has returned the chain contains its key, unless no level could be written |
| BlobCacheRuns.FindIsRight | Cache/lib/BlobCache.cpp:233-328 | a lookup answers the one blob if the key was there when it began, absent if the key is not there when it returns, and never anything else |
| BlobCacheRuns.ContainsIsRight | Cache/lib/BlobCache.cpp:168-231 | the same for a membership test |
| BlobCacheRuns.FindSeesInsert | Cache/lib/BlobCache.cpp:105-328 | on a writable chain a lookup that begins after an insert of its key returned answers that blob, whatever other calls do |
| BlobCacheRuns.ContainsSeesInsert | Cache/lib/BlobCache.cpp:105-231 | and a membership test says yes |
| BlobCacheAlone.CallAlone | Cache/lib/BlobCache.cpp:105-328 | a call that runs alone, step by step and damaged files included, returns with the reply and chain of the functions on the whole chain |
| ProfilerSwitch.GateKeeps | Support/lib/ExternalProfilerAnnotationHostGlue.cpp:109-121 | the latching gate keeps the invariant in every interleaving |
| ProfilerSwitch.AttemptKeeps | Support/lib/ExternalProfilerAnnotationHostGlue.cpp:168-248 | every step of the load attempt keeps the invariant |
| ProfilerSwitch.SetKeeps | Support/lib/ExternalProfilerAnnotationHostGlue.cpp:287-298 | every step of store and forward keeps the invariant |
| ProfilerSwitch.CallKeeps | Support/lib/ExternalProfilerAnnotationHostGlue.cpp:252-285 | reading the cached pointer, emitting and popping keep the invariant |
| ProfilerSwitch.RunInv | Support/lib/ExternalProfilerAnnotationHostGlue.cpp:79-298 | every state of every run satisfies the invariant |
| ProfilerTheorems.LoadedAtMostOnce | Support/lib/ExternalProfilerAnnotationHostGlue.cpp:166-175 | at most one load attempt, and only after annotation was requested |
| ProfilerTheorems.OverrideIsLatest | Support/lib/ExternalProfilerAnnotationHostGlue.cpp:107-121 | the override is the latest write; the environment default is only ever the first one |
| ProfilerTheorems.SwitchesAgree | Support/lib/ExternalProfilerAnnotationHostGlue.cpp:238-245 | with the mutex free and the shim loaded, the shim's flag is the latest write |
| ProfilerTheorems.DisagreeOnlyInsideForward | Support/lib/ExternalProfilerAnnotationHostGlue.cpp:234-245 | once the pointer is visible, the flags differ only while a thread holds the mutex before its forward |
| ProfilerTheorems.OneInside | Support/lib/ExternalProfilerAnnotationHostGlue.cpp:170 | at most one thread is in the loader's critical section |
| ProfilerTheorems.EmittersHaveTheShim | Support/lib/ExternalProfilerAnnotationHostGlue.cpp:252-258 | a thread about to emit has a loaded shim |
| ProfilerTheorems.SilentForAReason | Support/lib/ExternalProfilerAnnotationHostGlue.cpp:109-258 | a call that ends without emitting found the latest write off, or the load failed for good, at some time during the call |
| ProfilerTheorems.EmitsOnlyWhenOn | Support/lib/ExternalProfilerAnnotationHostGlue.cpp:109-258 | a call that emits found the latest write on when it passed the gate, and has a loaded shim |
| ProfilerTheorems.EmitMoves | Support/lib/ExternalProfilerAnnotationHostGlue.cpp:109-258 | in every step a call leaves the gate exactly as the latest write says, and gives up behind it only when the load has failed for good |
| ProfilerTheorems.LatchesTheEnvironment | Support/lib/ExternalProfilerAnnotationHostGlue.cpp:110-120 | undisturbed, a first call latches what the environment says and goes on if and only if that is on |
| ProfilerTheorems.RangesBalance | Support/lib/ExternalProfilerAnnotationHostGlue.cpp:260-277 | a range pushed while enabled is popped however the switch is flipped: shim and caller agree on the open ranges |
| ProfilerTheorems.EmitEffect | Support/lib/ExternalProfilerAnnotationHostGlue.cpp:260-285 | an emission ends the call and opens a range if and only if it is a push the shim accepts |
| ProfilerTheorems.PopCloses | Support/lib/ExternalProfilerAnnotationHostGlue.cpp:271-277 | an undisturbed pop closes exactly one range of its thread and changes nothing else, whatever the switch says |
| ProfilerTheorems.OutcomesAreTerminal | Support/lib/ExternalProfilerAnnotationHostGlue.cpp:81-84 | both load outcomes are final, the pointer is never withdrawn, no write is forgotten |
| ProfilerTheorems.FreeIsSettled | Support/lib/ExternalProfilerAnnotationHostGlue.cpp:168-235 | with the mutex free an attempted load has ended |
| ProfilerTheorems.OverrideStaysSet | Support/lib/ExternalProfilerAnnotationHostGlue.cpp:90-95 | once set the override is never unset |
| ProfilerTheorems.PublishedBeforeForward | Support/lib/ExternalProfilerAnnotationHostGlue.cpp:123-125 | a run in which, after setEnabled(true), another thread emits through a shim whose flag is still at its default, off |
| Overloads.SignatureOf | Haiku/generator/mojobe_gen.py:1448-1459 | the required count is exactly the fewest arguments a call can give |
| Overloads.VisibleAt | Haiku/generator/mojobe_gen.py:1448-1459 | the visible parameters are exactly those the bridge does not supply, in order |
| Overloads.Ambiguous | Haiku/generator/mojobe_gen.py:1461-1470 | the test finds a clash if and only if some call matches both overloads |
| Overloads.Select | Haiku/generator/mojobe_gen.py:1851-1888 | each candidate is skipped if and only if it clashes with something inherited or kept before; the class's table is exactly what is kept |
| Overloads.KeptAt | Haiku/generator/mojobe_gen.py:1851-1888 | what is kept under a name is exactly the candidates of that name that go into the trait, in order |
| Overloads.KeptAreApart | Haiku/generator/mojobe_gen.py:1854-1865 | no call matches two kept overloads, nor a kept and an inherited one |
| Overloads.StatusFirst | Haiku/generator/mojobe_gen.py:1988-1989 | status-reporting constructors come first, and both kinds keep their order |
| Overloads.SortKeepsAll | Haiku/generator/mojobe_gen.py:1988-1989 | the sort loses and repeats no constructor |
| Overloads.SelectConstructors | Haiku/generator/mojobe_gen.py:1986-1999 | in the sorted order each constructor is kept if and only if it clashes with none kept before it |
| Overloads.ConstructorsAreApart | Haiku/generator/mojobe_gen.py:1990-1999 | kept constructors never clash, each dropped one clashes with a kept one, a reporting one only with a reporting one |
| ClassOrder.SkipKeeps | Haiku/generator/mojobe_gen.py:412-414 | skipping a queued class that is seen or unknown keeps the search invariant |
| ClassOrder.VisitKeeps | Haiku/generator/mojobe_gen.py:412-416 | visiting a queued class keeps the search invariant with true distances |
| ClassOrder.Ancestors | Haiku/generator/mojobe_gen.py:407-417 | exactly the known classes above, each once, nearest first, for any hierarchy, even a cyclic one |
| BridgeOrder.BridgedBasesAreNearest | Haiku/generator/mojobe_gen.py:1405-1418 | exactly the bridged classes reached without passing another bridged one |
| BridgeOrder.BasesInOrder | Haiku/generator/mojobe_gen.py:1405-1418 | the list is in the order of the declared bases: what the first of them give begins it |
| BridgeOrder.AncestorsComeFirst | Haiku/generator/mojobe_gen.py:3495-3504 | after nearest bridged bases means after all bridged ancestors, also through unbridged classes |
| BridgeOrder.Planner.Visit | Haiku/generator/mojobe_gen.py:3497-3502 | the recursive visit appends the class after its bases and keeps the order valid |
| BridgeOrder.Planner.Plan | Haiku/generator/mojobe_gen.py:3495-3504 | every bridged class is emitted exactly once, after all its bridged ancestors |
| BridgeEmission.InheritedSignatures | Haiku/generator/mojobe_gen.py:1420-1446 | an overload is inherited if and only if a bridged ancestor's table has it |
| BridgeEmission.InheritedIsComplete | Haiku/generator/mojobe_gen.py:1439-1446 | in a bases-first order the inherited table is exactly what all bridged ancestors keep |
| BridgeEmission.EarlierUntouched | Haiku/generator/mojobe_gen.py:1888-1892 | emitting a class changes nothing said of earlier ones |
| BridgeEmission.NewClass | Haiku/generator/mojobe_gen.py:1851-1892 | the new class's table is complete, its candidates have their fates, and what it keeps is apart from everything it inherits |
| BridgeEmission.SelectedIsChosen | Haiku/generator/mojobe_gen.py:1851-1888 | a candidate is skipped if and only if a call matches it and an overload kept earlier by the class or by any bridged ancestor; else it is dropped, handed over or kept as it emits and hands over |
| BridgeEmission.EmitAll | Haiku/generator/mojobe_gen.py:3510-3511 | after the loop every class that is not a value class keeps, in order, exactly the candidates that emit, are not handed over and clash with none kept earlier by it or a bridged ancestor; tables are complete and no call is ambiguous |
| BridgeEmission.Generate | Haiku/generator/mojobe_gen.py:3495-3511 | the same for every bridged class of an acyclic hierarchy, in the order the generator chooses itself |
| HookDepth.Counter.EnterHook | Haiku/generator/mojobe_gen.py:2684-2696 | a hook gets into Mojo if and only if none is there; the counter stays the number of hooks in Mojo, and only the first refusal is reported |
| HookDepth.Counter.LeaveHook | Haiku/generator/mojobe_gen.py:2698-2701 | after the one hook in Mojo leaves, none is there and the next can enter |
| HookDepth.ApplyKeeps | Haiku/generator/mojobe_gen.py:2212-2223 | every hook call, return and destructor step keeps the invariant |
| HookDepth.OneMojoFrame | Haiku/generator/mojobe_gen.py:2669-2707 | in every well-nested run at most one frame of the object is inside Mojo, the counter is their number, and the warning comes at most once |
| HookDepth.EntersWhenFree | Haiku/generator/mojobe_gen.py:2212-2223 | a hook runs in Mojo if and only if its slot is set, destruction has not begun and none other is in Mojo; otherwise the base class's version runs, and the first hook refused for another is reported |
| HookDepth.NoEntryAfterDelete | Haiku/generator/mojobe_gen.py:2819-2832 | once destruction has begun no hook enters Mojo, whatever is called meanwhile |
| HookDepth.DestroyedOnce | Haiku/generator/mojobe_gen.py:2825-2834 | the destroy function has run exactly once if the object is gone and had one, and never otherwise |
| HookDepth.WholeLife | Haiku/generator/mojobe_gen.py:2212-2834 | for every object and number of items a whole life: one entry into Mojo, nested hooks handled by the base class, also in the destructor, and destruction to the end |
| FeatureCodec.TokensOfJoin | Support/lib/DeviceSpecs.cpp:86-105 | joining clean tokens with commas and splitting again gives them back |
| FeatureCodec.AppendSigned | Support/lib/DeviceSpecs.cpp:88-93 | one loop of the encoder appends exactly the signed names with commas between |
| FeatureCodec.EncodeFeatures | Support/lib/DeviceSpecs.cpp:86-101 | the two loops produce the comma-joined signed names |
| FeatureCodec.DecodeFeatures | Support/lib/DeviceSpecs.cpp:103-141 | names in first-seen order, divided by their last sign; an error exactly if some token is a lone sign |
| FeatureCodec.Divide | Support/lib/DeviceSpecs.cpp:133-140 | the second loop keeps the order in both lists |
| FeatureTheorems.RoundTrip | Support/lib/DeviceSpecs.cpp:86-141 | nonempty comma-free distinct names survive encoding and decoding, both lists in order |
| FeatureTheorems.DecodedIsProper | Support/lib/DeviceSpecs.cpp:103-141 | whatever decodes gives nonempty comma-free names, none twice or in both lists |
| FeatureTheorems.DecodeNormalizes | Support/lib/DeviceSpecs.cpp:86-141 | decode, encode, decode is decode on every text that decodes |
| FeatureTheorems.HasFeature | Support/lib/DeviceSpecs.cpp:75-84 | true if and only if some token is a plus and the nonempty name |
| FeatureTheorems.LookupInEncoding | Support/lib/DeviceSpecs.cpp:75-101 | on an encoding of clean names exactly the enabled ones are found |
| FeatureTheorems.LookupAgrees | Support/lib/DeviceSpecs.cpp:75-141 | a lookup agrees with decoding if and only if the last token about the name is not a minus after a plus nor an unsigned one without a plus |
| FeatureTheorems.LookupIgnoresLastWord | Support/lib/DeviceSpecs.cpp:75-141 | every name switched on then off is found, though it decodes as disabled |
| TargetRequirements.ReadIffSpelled | Support/lib/DeviceSpecs.cpp:65-66 | the number after the prefix is read if and only if it is written in decimal, leading zeros allowed, and below 2^64 |
| TargetRequirements.DecodeIff | Support/lib/DeviceSpecs.cpp:60-70 | a name is version n of sm if and only if it is sm_ and such a number; every other name stands for itself at version 0 |
| TargetRequirements.TripleIff | Support/lib/DeviceSpecs.cpp:231-260 | a known required architecture and a known required OS must be the provided ones, up to aarch64 for arm64 and Darwin for macOS |
| TargetRequirements.ArchIff | Support/lib/DeviceSpecs.cpp:263-277 | a required name is met by itself, sm_M by sm_N if and only if M <= N, and besides only the bare sm by every sm_N and sm_0 by the bare sm |
| TargetRequirements.SmArch | Support/lib/DeviceSpecs.cpp:272 | for all N and M below 2^64, written in decimal: sm_N satisfies sm_M if and only if M <= N |
| TargetRequirements.ParseFeatures | Support/lib/DeviceSpecs.cpp:296-311 | the map holds, per base name, the first feature that is not ignored |
| TargetRequirements.FirstIff | Support/lib/DeviceSpecs.cpp:296-311 | a base name has a version if and only if the first listed feature of that base name gives it; exactly 64Bit, shstk and cmov give none |
| TargetRequirements.CheckFeatures | Support/lib/DeviceSpecs.cpp:315-354 | the missing base names are exactly those not met; success if and only if there are none |
| TargetRequirements.FeaturesIff | Support/lib/DeviceSpecs.cpp:315-354 | features are satisfied if and only if for every base name the first required version is at most the first provided one and none is disabled |
| TargetRequirements.CheckSatisfiesRequirements | Support/lib/DeviceSpecs.cpp:356-372 | the four checks succeed if and only if triple, arch and features are met as those rows say and the ABI is the required one or none is required |
| TargetRequirements.Transitive | Support/lib/DeviceSpecs.cpp:214-372 | satisfaction is transitive over all targets |
| TargetRequirements.Reflexive | Support/lib/DeviceSpecs.cpp:315-372 | a target satisfies itself if and only if no enabled feature shares a base name with a disabled one, ignored names aside |
| TargetRequirements.AppendKeeps | Support/lib/DeviceSpecs.cpp:296-354 | appending provided features never breaks satisfaction |
| TargetRequirements.DisableLessKeeps | Support/lib/DeviceSpecs.cpp:330-336 | disabling fewer features never breaks satisfaction |
| TargetRequirements.PrependKeepsIff | Support/lib/DeviceSpecs.cpp:296-354 | a feature put in front keeps satisfaction if and only if it is ignored, not of a required base name, or recent enough |
| TargetRequirements.PrependCanBreak | Support/lib/DeviceSpecs.cpp:296-354 | an older version in front hides the newer one that satisfied the requirement |

## Left out

- Weak memory orderings in the logger and the profiler glue: every atomic access is one sequentially consistent step.
- Wrap-around of `size_t` ring positions after 2^64 claims: positions are unbounded.
- Time in the logger (the 100 microsecond poll, the condition variable, the spin wait): waiting is a step that may be repeated; no progress within a time is claimed.
- Rendering of log lines, JSON and prefixes: a message is the record's header and its arguments as the slot holds them.
- IPRational.AddExact: like all of the rationals and the powers, built on the integers at full width; `CutWidthRational` proves that the code agrees under a bound on the operands' widths, and does not say when it agrees beyond that bound.
- Shifts by negative amounts and `IPRational::abs`: not meant as arithmetic by the code.
- DiagnosticCodec.DecodesAll: sizes of 2^64 bytes and more, which `uint64_t` fields cannot hold, are excluded by `Encodable`; offsets are unbounded, so pointer overflow on damaged sizes is not modelled.
- DiagnosticCodec.EntryRoundTrip: reading of the bytecode itself, and hits on entries shorter than their footer, which the code reads without a check.
- BlobCacheRuns.FindSeesInsert: simultaneous calls that insert different blobs under one key are not modelled; a file is taken to appear in one step, because LLVM writes it under a temporary name and renames it.
- Input and output errors of the file level (disk space, directories, locks, concurrent processes): writes succeed, and a file name is never a directory.
- A cache file shorter than the 16-byte hash: the model calls it damaged; the code asserts.
- The encoding of the empty key: `encodeURLSafeBase64` needs a nonempty string.
- Where the generator's candidates come from (headers, `own_members`, hand-over methods of bases, hidden redeclarations): the candidates of each class are an input.
- HookDepth.OneMojoFrame: runs end when the object is gone; a hook returning into a deleted object has no defined behaviour.
- The text the generator emits, the wording of its manifest, and value classes: string production.
- TargetRequirements.CheckFeatures: the wording and order of the error message.
- JSON forms of targets, device references, SIMD widths, work queues, timers, statistics and configuration search: input and output, or easy members.
