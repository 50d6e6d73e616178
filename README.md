# Wil21 sky-model dataset decoder and repacker, in Dafny

This project models the host-side core of the Wil21 sky-model plugin. The core
takes the binary sky-model dataset apart and repacks it for the compute shader.
It also keeps the control record that drives rendering.

The modelled parts:

- **Half widening** (`Half`): `DoubleFromHalf` turns a binary16 pattern into a
  binary64 pattern. It is a method that follows the source's branches and its
  normalisation loop. It is proved equal to a field-by-field reference
  widening, `WidenHalf`. The lemmas state the IEEE 754-2008 binary16 to
  binary64 conversion (section 3.4) for zeros, subnormals, normals, infinities
  and NaNs.
- **File handle** (`Stream`): a class holding the file contents and a read
  position, with `Tell`, `Seek` and typed reads. Pure field readers specify
  what each read returns.
- **Radiance reader** (`Visibility`, `Radiance`, `Coefficients`,
  `RadianceReader`):
  - `ReadRadiance` is a pure parse of the radiance section. It covers the
    visibility-window choice, the early returns in the source's order
    (`Validation`), the
    configuration counts, the derived layout metadata, the skip over the
    leading configurations, and the coefficient layout.
  - `ReadRadianceFile` is the imperative reader. It advances the handle and
    fills a preallocated coefficient array at `Offset++` in nested loops. It
    is proved to follow `ReadRadiance`.
- **Transmittance reader** (`Transmittance`): `ReadTransmittance` is the pure
  parse. `ReadTransmittanceFile` is the imperative reader proved against it.
- **Repacker** (`Repack`, `Packing`):
  - `ConvertDoublesToUint32s` splits each double pattern into a `DoublePacked`
    (low, high) pair.
  - `ConvertDoublesToFUint32s` writes the same words as one interleaved
    stream.
  - `PackShaderData` assembles `FShaderPackedData`. Every packed array is
    proved to read back as its source array.
- **Control record** (`Control`, `Actor`): `FShaderControlData` with its
  `==` and `!=`. The actor class `DataProcessor` holds the control record, the
  packed data and a broadcast counter. `SetVariable` stores a new record and
  fires one broadcast exactly when the record compares unequal to the stored
  one.

Modelling conventions:

- Doubles and floats are raw bit patterns (`F64`, `F32`). The C++ comparisons
  are modelled exactly on those patterns: any comparison with a NaN is false,
  and +0 equals -0.
- Integers read from the file are little-endian 32-bit two's complement.
- A pure specification returns `Result<_, Halt<E>>`, where `Halt` is one of:
  - `Rejected(error, at)`: one of the reader's own early returns, taken at
    position `at`;
  - `Unsupported`: an input the code does not handle. This covers a read past
    the end of the file, a `SetNum` with a negative count, a 32-bit product
    that overflows, and a 64-bit seek target that overflows.
- The imperative readers require that their input is not `Unsupported`. They
  do not report truncation, because the source never checks what `Read`
  returned.

The actor `ADataProcessor` has its own copies of `ReadRadianceFile`,
`ConvertDoublesToUint32s` and `DoubleFromHalf`. They match the library's
versions line for line, so each is modelled once and the actor calls the
library model. `ReadRadianceFile` is cited at
Plugins/Wil21Model/Source/Wil21Model/Private/DataProcessorActor.cpp:6-208,
`DoubleFromHalf` at lines 404-422 and `ConvertDoublesToUint32s` at lines
371-384.

The seek past the configurations after the kept ones is inside a comment
(Plugins/Wil21Model/Source/Wil21Model/Private/DatProcessor.cpp:228), so the
reader leaves the handle just after the last decoded configuration, and so
does `ReadRadiance`.

## Model

| member | source | states |
|---|---|---|
| Half.DoubleFromHalf | Plugins/Wil21Model/Source/Wil21Model/Private/DatProcessor.cpp:6-24 | The source's sign shift, exponent rebase, boolean shift and normalisation loop return exactly the reference widening `WidenHalf`. Loop invariants: for a subnormal the loop runs at most 10 times and leaves the magnitude in [0x400, 0x800); a normal, infinite or NaN input skips the loop. |
| Half.HighWordWidening | Plugins/Wil21Model/Source/Wil21Model/Private/DatProcessor.cpp:12-18 | For any nonzero magnitude, the high word the source builds after its loop, shifted by 32, is the reference widening. |
| Half.ZeroWidening | Plugins/Wil21Model/Source/Wil21Model/Private/DatProcessor.cpp:8-11 | A zero magnitude gives only the sign bit, shifted to bit 63. |
| Half.NormalWidening | Plugins/Wil21Model/Source/Wil21Model/Private/DatProcessor.cpp:12-18 | For a normal, infinity or NaN, the high word with rebase 0x3F000000 (doubled for exponent 31) plus magnitude << 10 is the reference widening. |
| Half.SubnormalWidening | Plugins/Wil21Model/Source/Wil21Model/Private/DatProcessor.cpp:13-18 | For a subnormal normalised by k shifts into [0x400, 0x800), subtracting 0x100000 per shift gives the reference widening. |
| Half.WidenHalfLowWordZero | Plugins/Wil21Model/Source/Wil21Model/Private/DatProcessor.cpp:20 | The low 32 bits of every result are zero. |
| Half.WidenHalfSign | Plugins/Wil21Model/Source/Wil21Model/Private/DatProcessor.cpp:8 | Bit 63 of the result equals bit 15 of the input. |
| Half.WidenHalfSignedZero | Plugins/Wil21Model/Source/Wil21Model/Private/DatProcessor.cpp:10-20 | A zero magnitude widens to the zero of the same sign. |
| Half.WidenHalfSpecials | Plugins/Wil21Model/Source/Wil21Model/Private/DatProcessor.cpp:12 | The result is a NaN iff the input is a NaN. It is an infinity iff the input is one. Exponent 31 keeps the fraction, which is the NaN payload, at the top of the binary64 fraction. |
| Half.WidenHalfZeros | Plugins/Wil21Model/Source/Wil21Model/Private/DatProcessor.cpp:6-24 | +0 and -0 widen to the binary64 zeros. |
| Half.WidenHalfSubnormals | Plugins/Wil21Model/Source/Wil21Model/Private/DatProcessor.cpp:13-18 | 0x0001 widens to 2^-24 and 0x03FF to the largest binary16 subnormal, as binary64 patterns. |
| Half.WidenHalfNormalRange | Plugins/Wil21Model/Source/Wil21Model/Private/DatProcessor.cpp:12-18 | 0x0400 widens to 2^-14 and 0x7BFF to 65504. |
| Half.WidenHalfOneMinusTwo | Plugins/Wil21Model/Source/Wil21Model/Private/DatProcessor.cpp:6-24 | 0x3C00 widens to 1.0 and 0xC000 to -2.0. |
| Half.WidenHalfInfinityNaN | Plugins/Wil21Model/Source/Wil21Model/Private/DatProcessor.cpp:12 | 0x7C00 widens to +infinity and 0x7E00 to the quiet NaN. |
| Stream.FileHandle.ReadI32 | Plugins/Wil21Model/Source/Wil21Model/Private/DatProcessor.cpp:30 | Reads four little-endian bytes as a signed int and advances by 4. |
| Stream.FileHandle.ReadU16s | Plugins/Wil21Model/Source/Wil21Model/Private/DatProcessor.cpp:204 | One read of 2n bytes yields n 16-bit words and advances by 2n. |
| Stream.ReadPositiveInt | Plugins/Wil21Model/Source/Wil21Model/Private/DatProcessor.cpp:73-80 | A count read and rejected right after it when below 1. On success it is in [1, 2^31). |
| Stream.ReadPositiveIntFrom | Plugins/Wil21Model/Source/Wil21Model/Private/DatProcessor.cpp:73-80 | The handle-level count check follows `ReadPositiveInt`: the same value or error, and the same final position. |
| Visibility.SelectVisibility | Plugins/Wil21Model/Source/Wil21Model/Private/DatProcessor.cpp:36-64 | The kept points are a contiguous slice of the grid starting at `skipped`. skipped + kept count <= grid size. |
| Visibility.SelectVisibilities | Plugins/Wil21Model/Source/Wil21Model/Private/DatProcessor.cpp:36-64 | The branches and the scan loop compute `SelectVisibility`. |
| Visibility.SelectWholeAxis | Plugins/Wil21Model/Source/Wil21Model/Private/DatProcessor.cpp:38-41 | A request <= 0, or a grid of at most one point, keeps the whole grid with skip 0. |
| Visibility.SelectBelowFirst | Plugins/Wil21Model/Source/Wil21Model/Private/DatProcessor.cpp:44-47 | A request <= axis[0] keeps [axis[0]] with skip 0. |
| Visibility.SelectAboveLast | Plugins/Wil21Model/Source/Wil21Model/Private/DatProcessor.cpp:48-52 | A request >= the last point keeps [last] with skip n-1. |
| Visibility.SelectBrackets | Plugins/Wil21Model/Source/Wil21Model/Private/DatProcessor.cpp:53-63 | For axis[0] < v < last, the scan stops at the first i with v < axis[i]. Then 1 <= i <= n-1, every earlier point is <= v, [axis[i-1], axis[i]] is kept, and the skip is i-1. The grid need not be sorted. |
| Visibility.SelectExamples | Plugins/Wil21Model/Source/Wil21Model/Private/DatProcessor.cpp:36-64 | On the grid 10, 20, 30, requests 0, 5, 35, 15 and 25 give the expected windows. |
| Visibility.ScanAsWritten | Plugins/Wil21Model/Source/Wil21Model/Private/DatProcessor.cpp:55-59 | The scan as written, from index 0: the first index whose grid point the request is not `>=` (IEEE comparison), every earlier point being `<=` the request; it lies inside the grid when the request is below the last point. |
| Visibility.NaNRequestReadsBeforeGrid | Plugins/Wil21Model/Source/Wil21Model/Private/DatProcessor.cpp:55-60 | As written, a NaN request passes every guard and stops the scan at index 0, so the source reads axis[-1]. |
| Visibility.ScanStartAgrees | Plugins/Wil21Model/Source/Wil21Model/Private/DatProcessor.cpp:55-59 | For numeric v and axis[0] that reach the scan, starting at 0 (as written) or at 1 (corrected) stops at the same index, which is >= 1. |
| Visibility.NaNFirstPointReadsBeforeGrid | Plugins/Wil21Model/Source/Wil21Model/Private/DatProcessor.cpp:44-60 | As written, a NaN at axis[0] lets any request above 0 and below the last point pass the guards, and the scan stops at index 0, so axis[-1] is read. The scan from 1 stops at an index >= 1. |
| Visibility.KeptVisibilitiesAsWritten | Plugins/Wil21Model/Source/Wil21Model/Private/DatProcessor.cpp:38-63 | The record's visibilities after the selection when it held earlier ones: the whole-grid branch assigns, the others append. Into an empty record it is exactly `SelectVisibility`'s kept points. |
| Visibility.RereadOverrunsGrid | Plugins/Wil21Model/Source/Wil21Model/Private/DatProcessor.cpp:38-127 | A positive request read into a record that already holds the whole grid leaves more visibilities than the grid has, and the remaining-configurations factor `n - skipped - |VisibilitiesRad|` is negative. |
| Radiance.ReadArray | Plugins/Wil21Model/Source/Wil21Model/Private/DatProcessor.cpp:67-70 | A count followed by that many doubles. The array is in int32 range and the read stays within the file. |
| Radiance.ReadCheckedArray | Plugins/Wil21Model/Source/Wil21Model/Private/DatProcessor.cpp:73-83 | A count below the minimum is rejected right after the count. Otherwise the array holds at least that many doubles. |
| Radiance.ReadChannels | Plugins/Wil21Model/Source/Wil21Model/Private/DatProcessor.cpp:97-119 | Channels >= 1, start not < 0 and width not <= 0, each checked right after its read. It takes 20 bytes. |
| Radiance.ReadHeader | Plugins/Wil21Model/Source/Wil21Model/Private/DatProcessor.cpp:28-119 | On success: at least one altitude, elevation and channel; a valid channel start and width; the visibility window is `SelectVisibility` of the on-disk grid. A rejection names the offending field. |
| Radiance.CountConfigs | Plugins/Wil21Model/Source/Wil21Model/Private/DatProcessor.cpp:121-127 | The three configuration counts as int32 products. Only an overflow fails. |
| Radiance.ConfigCountsPartition | Plugins/Wil21Model/Source/Wil21Model/Private/DatProcessor.cpp:121-127 | Begin + total + end = Channels·elevations·altitudes·albedos·(on-disk visibilities), all three >= 0. With no albedos all three are 0. |
| Radiance.ReadBreaks | Plugins/Wil21Model/Source/Wil21Model/Private/DatProcessor.cpp:129-172 | On success: rank >= 1 and at least two breaks of each kind, all counts in int32 range. A rejection is one of the four break checks, with the refused count just before `at`. Which check rejects is stated by `Validation.BreaksWalk` and `Validation.RejectionIsFirstFailingCheck`. |
| Radiance.DeriveMetadata | Plugins/Wil21Model/Source/Wil21Model/Private/DatProcessor.cpp:174-184 | The derived offsets and totals. Only an int32 overflow fails. |
| Radiance.MetadataLayout | Plugins/Wil21Model/Source/Wil21Model/Private/DatProcessor.cpp:174-184 | SunOffset = 0, SunStride = ZenithStride = |sun|+|zenith|, ZenithOffset = |sun|, EmphOffset = Rank·SunStride, single total = EmphOffset + |emph|, all-configs total = single total · TotalConfigs. |
| Radiance.MetadataExample | Plugins/Wil21Model/Source/Wil21Model/Private/DatProcessor.cpp:174-184 | Rank 2 with 4/3/5 breaks gives stride 7, emphasis offset 14 and 19 coefficients per configuration. |
| Radiance.OneConfigByteCountExact | Plugins/Wil21Model/Source/Wil21Model/Private/DatProcessor.cpp:193 | `OneConfigByteCount` = ((|sun|+|zenith|)·2 + 8)·Rank + |emph|·2 is exactly the bytes one configuration block occupies. It equals 2·TotalCoefsSingleConfig + 8·Rank. |
| Radiance.SkipTarget | Plugins/Wil21Model/Source/Wil21Model/Private/DatProcessor.cpp:195-196 | The seek target is the current position + OneConfigByteCount·SkippedConfigsBegin, within int64. |
| Radiance.PlanRead | Plugins/Wil21Model/Source/Wil21Model/Private/DatProcessor.cpp:26-196 | Everything before the decode loop. The data start is past the skipped blocks, and all retained blocks fit in the file. A rejection names the offending field at its position. |
| Radiance.ReadRadiance | Plugins/Wil21Model/Source/Wil21Model/Private/DatProcessor.cpp:26-229 | The whole radiance parse. A rejection names a refused field, and `at` lies just after it within the file. That it is the first failing check is `Validation.RejectionIsFirstFailingCheck`. |
| Validation.CheckIndex | Plugins/Wil21Model/Source/Wil21Model/Private/DatProcessor.cpp:73-169 | The nine checks in the order the reader makes them: altitude, elevation and channel counts, channel start and width, rank, and the sun, zenith and emphasis break counts. |
| Validation.StepFieldOrder | Plugins/Wil21Model/Source/Wil21Model/Private/DatProcessor.cpp:73-172 | One step of the walk: from a field that is reached, success means the check passed and the next field starts after it; a rejection is this check's error just after the field; a refused field is rejected there. |
| Validation.WalkChained | Plugins/Wil21Model/Source/Wil21Model/Private/DatProcessor.cpp:73-172 | Every step of the walk over the nine check fields keeps that order, and nothing is rejected before the first field. |
| Validation.ChainRejection | Plugins/Wil21Model/Source/Wil21Model/Private/DatProcessor.cpp:73-172 | In such a chain, a rejection at `at` by check e comes from an earlier position where e's field starts at `at` less the field width. |
| Validation.ChainRejects | Plugins/Wil21Model/Source/Wil21Model/Private/DatProcessor.cpp:73-172 | In such a chain, a reached field that is refused makes every later position that same rejection. |
| Validation.EarlierChecksPass | Plugins/Wil21Model/Source/Wil21Model/Private/DatProcessor.cpp:73-172 | Reaching check k means every earlier check was reached and passed, each field ending no later than the next one starts. |
| Validation.HeaderWalk | Plugins/Wil21Model/Source/Wil21Model/Private/DatProcessor.cpp:73-119 | The header parser fails exactly where the walk to the rank field fails, with the same error. On success it ends where the rank field starts. |
| Validation.BreaksWalk | Plugins/Wil21Model/Source/Wil21Model/Private/DatProcessor.cpp:129-172 | From the rank field on, the breaks parser fails exactly where the walk to the end of the breaks fails, with the same error. |
| Validation.RejectionStage | Plugins/Wil21Model/Source/Wil21Model/Private/DatProcessor.cpp:26-172 | A rejection of the whole read is the header's, or, after a complete header whose configuration products fit, the breaks'. |
| Validation.WalkFirstFailing | Plugins/Wil21Model/Source/Wil21Model/Private/DatProcessor.cpp:73-172 | A walk rejected by check e at `at` reached e's field, which ends at `at`, with every earlier check passed. |
| Validation.RejectionIsFirstFailingCheck | Plugins/Wil21Model/Source/Wil21Model/Private/DatProcessor.cpp:26-172 | An early return of the radiance read is the first failing check: its field is reached, every earlier check passed, the field holds a refused value and `at` is just after it. |
| Validation.FirstFailingCheckIsRejected | Plugins/Wil21Model/Source/Wil21Model/Private/DatProcessor.cpp:26-172 | Converse: if check k is reached and its field is refused, the radiance read returns k's error just after that field. For a break check this holds when the configuration products of lines 122-127 fit in an int; when they do not, the read is unsupported before any break is read. |
| Radiance.DecodeShape | Plugins/Wil21Model/Source/Wil21Model/Private/DatProcessor.cpp:186-229 | |DataRad| = TotalCoefsAllConfigs. The reader stops right after the last retained configuration (no trailing seek). |
| Radiance.SunCoefficient | Plugins/Wil21Model/Source/Wil21Model/Private/DatProcessor.cpp:203-208 | Sun word k of term r of configuration c lands at c·T + r·SunStride + k, widened. |
| Radiance.ZenithCoefficient | Plugins/Wil21Model/Source/Wil21Model/Private/DatProcessor.cpp:210-217 | Zenith word k lands at c·T + r·SunStride + ZenithOffset + k, widened and divided by that term's zenith scale. |
| Radiance.EmphCoefficient | Plugins/Wil21Model/Source/Wil21Model/Private/DatProcessor.cpp:220-225 | Emphasis word k lands at c·T + EmphOffset + k, widened and not divided. |
| Coefficients.ConfigBytesCount | Plugins/Wil21Model/Source/Wil21Model/Private/DatProcessor.cpp:193 | Bytes per configuration = Rank·(2·(|sun|+|zenith|) + 8) + 2·|emph|. |
| Coefficients.ConfigCoefsLength | Plugins/Wil21Model/Source/Wil21Model/Private/DatProcessor.cpp:199-226 | One configuration yields Rank·SunStride + |emph| coefficients. |
| Coefficients.AllCoefsLength | Plugins/Wil21Model/Source/Wil21Model/Private/DatProcessor.cpp:199-226 | c configurations yield c·TotalCoefsSingleConfig coefficients, which is the value of `Offset` after c iterations. |
| Coefficients.SunCoefAt | Plugins/Wil21Model/Source/Wil21Model/Private/DatProcessor.cpp:203-208 | The sun coefficient position inside the flattened blocks, and the word it is read from. |
| Coefficients.ZenithCoefAt | Plugins/Wil21Model/Source/Wil21Model/Private/DatProcessor.cpp:210-217 | The zenith coefficient position, its word, and the scale read before the term's zenith words. |
| Coefficients.EmphCoefAt | Plugins/Wil21Model/Source/Wil21Model/Private/DatProcessor.cpp:220-225 | The emphasis coefficient position and the word after the configuration's rank terms. |
| RadianceReader.ReadArrayFrom | Plugins/Wil21Model/Source/Wil21Model/Private/DatProcessor.cpp:67-70 | The handle-level array read returns `ReadArray`'s value and position. |
| RadianceReader.ReadCheckedArrayFrom | Plugins/Wil21Model/Source/Wil21Model/Private/DatProcessor.cpp:73-83 | The handle-level checked read follows `ReadCheckedArray`. |
| RadianceReader.ReadChannelsFrom | Plugins/Wil21Model/Source/Wil21Model/Private/DatProcessor.cpp:97-119 | The handle-level channel reads follow `ReadChannels`. |
| RadianceReader.ReadHeaderFields | Plugins/Wil21Model/Source/Wil21Model/Private/DatProcessor.cpp:28-119 | The handle-level header reads follow `ReadHeader`. |
| RadianceReader.ReadBreakFields | Plugins/Wil21Model/Source/Wil21Model/Private/DatProcessor.cpp:129-172 | The handle-level break reads follow `ReadBreaks`. |
| RadianceReader.StoreHalves | Plugins/Wil21Model/Source/Wil21Model/Private/DatProcessor.cpp:205-208 | The inner loop writes the widened (optionally divided) words at `Offset++`. The prefix becomes old prefix + values, and nothing after it changes. |
| RadianceReader.DecodeTerm | Plugins/Wil21Model/Source/Wil21Model/Private/DatProcessor.cpp:203-217 | One rank term consumes exactly its bytes and appends its sun then zenith coefficients. |
| RadianceReader.DecodeTerms | Plugins/Wil21Model/Source/Wil21Model/Private/DatProcessor.cpp:201-218 | The rank loop appends the flattened term blocks and advances by Rank term sizes. |
| RadianceReader.DecodeConfig | Plugins/Wil21Model/Source/Wil21Model/Private/DatProcessor.cpp:201-225 | One configuration consumes exactly `OneConfigByteCount` bytes and appends its coefficients. |
| RadianceReader.DecodeConfigurations | Plugins/Wil21Model/Source/Wil21Model/Private/DatProcessor.cpp:199-226 | After the loop, `Offset` = TotalConfigs·T and the array prefix is the pure coefficient sequence. Every write is in bounds. |
| RadianceReader.PlanFrom | Plugins/Wil21Model/Source/Wil21Model/Private/DatProcessor.cpp:26-196 | The handle-level reads, checks, derivations and skip follow `PlanRead`, or stop where it rejects. |
| RadianceReader.ReadRadianceFile | Plugins/Wil21Model/Source/Wil21Model/Private/DatProcessor.cpp:26-229 | The reader returns `ReadRadiance`'s data and final position, or its early return at the same position. |
| Transmittance.CoefCountU | Plugins/Wil21Model/Source/Wil21Model/Private/DatProcessor.cpp:306 | `totalCoefsU` = DDim·ADim·RankTrans·|alt|, within int32. |
| Transmittance.CoefCountV | Plugins/Wil21Model/Source/Wil21Model/Private/DatProcessor.cpp:307 | `totalCoefsV` = |vis|·RankTrans·Channels·|alt|, within int32. |
| Transmittance.ReadCounts | Plugins/Wil21Model/Source/Wil21Model/Private/DatProcessor.cpp:239-272 | DDim, ADim, the visibility count and the altitude count are each >= 1. RankTrans is read unchecked. They take 20 bytes. |
| Transmittance.ReadTransmittance | Plugins/Wil21Model/Source/Wil21Model/Private/DatProcessor.cpp:231-326 | On success: the counts are positive, |DataTransU| and |DataTransV| are the two products, and the section ends after the four arrays. Every rejection comes from the counts. |
| Transmittance.CountsRejection | Plugins/Wil21Model/Source/Wil21Model/Private/DatProcessor.cpp:242-270 | A rejection names the first count below 1, at the position just after it. All earlier counts are >= 1. |
| Transmittance.RejectionIsFirstBadCount | Plugins/Wil21Model/Source/Wil21Model/Private/DatProcessor.cpp:242-270 | The same, for the whole transmittance parse. |
| Transmittance.CountsRejectFirstBad | Plugins/Wil21Model/Source/Wil21Model/Private/DatProcessor.cpp:242-270 | Converse: if count k is the first below 1, the count reader rejects with error k just after it. |
| Transmittance.FirstBadCountIsRejected | Plugins/Wil21Model/Source/Wil21Model/Private/DatProcessor.cpp:242-270 | The same converse, for the whole transmittance parse. |
| Transmittance.ReadsWellFormedSection | Plugins/Wil21Model/Source/Wil21Model/Private/DatProcessor.cpp:272-319 | With positive counts and products in range, the parse reads the altitudes before the visibilities, widens each float, and reads U and V as raw floats. |
| Transmittance.WidenFloats | Plugins/Wil21Model/Source/Wil21Model/Private/DatProcessor.cpp:289-292 | The copy loop stores `double(temp[i])` for each i. |
| Transmittance.ReadCountsFrom | Plugins/Wil21Model/Source/Wil21Model/Private/DatProcessor.cpp:239-272 | The handle-level count reads follow `ReadCounts`. |
| Transmittance.ReadTransmittanceFile | Plugins/Wil21Model/Source/Wil21Model/Private/DatProcessor.cpp:231-326 | A null handle returns `InvalidFileHandle`. Otherwise the reader follows `ReadTransmittance`: value, early return and position. |
| Repack.Split | Plugins/Wil21Model/Source/Wil21Model/Private/DatProcessor.cpp:383-384 | Low = bits 0-31 and High = bits 32-63, so High<<32 \| Low gives back the pattern. |
| Repack.SplitJoin | Plugins/Wil21Model/Source/Wil21Model/Public/DatProcessor.h:102-106 | Joining a pair and splitting it again gives the same pair. |
| Repack.JoinAllSplitAll | Plugins/Wil21Model/Source/Wil21Model/Private/DatProcessor.cpp:376-389 | Joining the pairs gives back the double array. |
| Repack.SplitAllJoinAll | Plugins/Wil21Model/Source/Wil21Model/Public/DatProcessor.h:102-106 | Splitting the joined doubles gives back the pair array. |
| Repack.JoinAllInjective | Plugins/Wil21Model/Source/Wil21Model/Public/DatProcessor.h:102-106 | Two pair arrays that stand for the same doubles are equal. |
| Repack.InterleaveAt | Plugins/Wil21Model/Source/Wil21Model/Private/DatProcessor.cpp:394-398 | The stream has 2n words: word 2i is pair i's low word and word 2i+1 its high word. |
| Repack.InterleaveFlattens | Plugins/Wil21Model/Source/Wil21Model/Private/DatProcessor.cpp:394-398 | Words 2i..2i+2 of the stream are pair i spelt out. |
| Repack.JoinWordsInterleave | Plugins/Wil21Model/Source/Wil21Model/Private/DatProcessor.cpp:390-401 | Reading the stream back two words at a time gives the doubles. |
| Repack.JoinWordsInjective | Plugins/Wil21Model/Source/Wil21Model/Private/DatProcessor.cpp:390-401 | Two streams that read back as the same doubles are equal. |
| Repack.ConvertDoublesToUint32s | Plugins/Wil21Model/Source/Wil21Model/Private/DatProcessor.cpp:376-389 | One pair per input, in order, equal to `SplitAll`. |
| Repack.ConvertDoublesToFUint32s | Plugins/Wil21Model/Source/Wil21Model/Private/DatProcessor.cpp:390-401 | 2n words with out[2i] = low and out[2i+1] = high of input i, equal to the flattened pair sequence. |
| Packing.PackShaderData | Plugins/Wil21Model/Source/Wil21Model/Private/DatProcessor.cpp:343-373 | The metadata is copied and every size field is the length of its array. Every packed array reads back as its source array. DataRadSize = 2·|DataRad|. |
| Packing.PackedLayout | Plugins/Wil21Model/Source/Wil21Model/Private/DataProcessorActor.cpp:241-269 | Each packed array has the length its size field records. DataRadSize is twice the coefficient count. Stream words 2i and 2i+1 are coefficient i's low and high words. |
| Packing.PacksUnique | Plugins/Wil21Model/Source/Wil21Model/Private/DataProcessorActor.cpp:241-269 | The packed record is determined by the radiance data. |
| Packing.ReadDatFileFromContentFolder | Plugins/Wil21Model/Source/Wil21Model/Private/DatProcessor.cpp:327-375 | Reads the radiance section as `ReadRadianceFile` does. On success it returns the packed record of what was read. |
| Control.ControlEq | Plugins/Wil21Model/Source/Wil21Model/Public/DatProcessor.h:172-175 | `operator==` holds exactly when neither record has a NaN, the resolutions are equal, and each float field is the same pattern or both are zeros of either sign (IEEE `==`, so +0 == -0); equal NaN-free records compare equal. |
| Control.ControlEqSignExamples | Plugins/Wil21Model/Source/Wil21Model/Public/DatProcessor.h:172-175 | Records differing only in +0/-0 altitude compare equal; records differing only in albedo 1.0f/-1.0f do not. |
| Control.ControlNotEq | Plugins/Wil21Model/Source/Wil21Model/Public/DatProcessor.h:176-179 | `operator!=`, the negation of `operator==`: a NaN on either side or different resolutions make records differ; a NaN-free record never differs from itself. |
| Control.DefaultControlValues | Plugins/Wil21Model/Source/Wil21Model/Public/DatProcessor.h:161-171 | The default initialisers of `DEFAULT_CONTROL`: resolution 1024, each float pattern the binary32 nearest to -4.2, 180.0, 0.5 and 131.8 (exact for 180 and 0.5, within half a unit in the last place otherwise), and altitude the positive zero. |
| Control.Requested | Plugins/Wil21Model/Source/Wil21Model/Private/DataProcessorActor.cpp:389-395 | The new record has resolution 1024 and altitude 0. |
| Control.DefaultControlWellFormed | Plugins/Wil21Model/Source/Wil21Model/Public/DatProcessor.h:161-171 | The default record (1024, -4.2, 180, 0.5, 131.8, 0) has no NaN field, so it compares equal to itself. |
| Control.ControlEqReflexive | Plugins/Wil21Model/Source/Wil21Model/Public/DatProcessor.h:172-175 | A record is `==` to itself iff none of its floats is a NaN. |
| Control.ControlEqSymmetric | Plugins/Wil21Model/Source/Wil21Model/Public/DatProcessor.h:172-175 | `==` is symmetric. |
| Control.ControlEqTransitive | Plugins/Wil21Model/Source/Wil21Model/Public/DatProcessor.h:172-175 | `==` is transitive. |
| Control.ControlEqIsEquality | Plugins/Wil21Model/Source/Wil21Model/Public/DatProcessor.h:172-175 | On NaN-free records with no zero field, `==` is equality of all six fields. |
| Control.NextControlMatchesRequest | Plugins/Wil21Model/Source/Wil21Model/Private/DataProcessorActor.cpp:396-400 | After `SetVariable`, the stored record compares equal to the NaN-free request. |
| Control.SetVariableIdempotent | Plugins/Wil21Model/Source/Wil21Model/Private/DataProcessorActor.cpp:396-400 | A second call with the same NaN-free arguments neither changes the record nor broadcasts. |
| Control.NaNRequestAlwaysBroadcasts | Plugins/Wil21Model/Source/Wil21Model/Private/DataProcessorActor.cpp:396-400 | Arguments holding a NaN always replace the record and broadcast. |
| Control.KeptRecordAgreesWithRequest | Plugins/Wil21Model/Source/Wil21Model/Private/DataProcessorActor.cpp:396-400 | When nothing is broadcast, the stored record is kept. It differs from the request at most in the signs of zeros. |
| Actor.DataProcessor.SetVariable | Plugins/Wil21Model/Source/Wil21Model/Private/DataProcessorActor.cpp:387-402 | The request is stored, and the broadcast counter goes up by exactly one, iff it compares unequal to the stored record. Otherwise nothing changes. |
| Actor.DataProcessor.ReadDatFileFromContentFolder | Plugins/Wil21Model/Source/Wil21Model/Private/DataProcessorActor.cpp:226-269 | The actor keeps the packed record of the radiance data read. The control record and the counter are unchanged. |
| Actor.DataProcessor.constructor | Plugins/Wil21Model/Source/Wil21Model/Private/DataProcessorActor.cpp:211-224 | The default control record, no broadcasts, and the dataset read with visibility 0. |
| Actor.DefaultRereadOverrunsGrid | Plugins/Wil21Model/Source/Wil21Model/Private/DataProcessorActor.cpp:18-107 | After the constructor's read with visibility 0, a second read with the default 23.8 leaves more visibilities in the kept record than the grid has. |

## Left out

- File opening: building the path, the platform file open, and `delete Handle`. These are host I/O. The model starts from an open `FileHandle` over the file's bytes. The library entry point passes a null handle on to `ReadRadianceFile`, which dereferences it. The model requires a handle there.
- The number of bytes `Read` returns is never checked by the source. A read past the end, and therefore a truncated file, is outside the model (`Unsupported`) rather than an error the readers report.
- Partially filled results: on an early return the source leaves the fields read so far in `Result`, and `ReadDatFileFromContentFolder` packs them anyway. The model returns only the error and packs nothing.
- Actor.DataProcessor.ReadDatFileFromContentFolder: reads into an empty record. The actor keeps `SkyModelData` between calls, and after any read that keeps a grid a later read with a positive request appends to the kept visibilities, which skews `TotalConfigs` and makes `SkippedConfigsEnd` negative. The model does not capture that state; the second Findings row shows it with `Visibility.KeptVisibilitiesAsWritten`. The library entry point `Packing.ReadDatFileFromContentFolder` has the same limitation when its caller passes a record that was read into before.
- Visibility.SelectVisibility and Visibility.SelectVisibilities: scan from index 1, where Plugins/Wil21Model/Source/Wil21Model/Private/DatProcessor.cpp:55 scans from 0, so they and everything built on them (`ReadRadiance`, `ReadRadianceFile`) follow the first Findings row's corrected behaviour and do not read before the grid.
- Floating-point arithmetic: the zenith-scale division (a zero scale included) is the parameter `divide`. The float-to-double widening of the transmittance grids is the parameter `widen`. Comparisons are exact IEEE comparisons on bit patterns.
- 32-bit `int` overflow in the configuration, coefficient and transmittance products, and a 64-bit seek overflow, are `Unsupported` rather than wrapped.
- Validation.FirstFailingCheckIsRejected: for a break check it holds only when the configuration products of DatProcessor.cpp lines 122-127 fit in an `int`, because the model makes their overflow `Unsupported`, and the source computes them before it reads the rank.
- Packing.PackShaderData: the size fields are unbounded integers. A coefficient stream of more than 2^31 - 1 words, which a `TArray` cannot hold, is not modelled.
- `ReadTransmittanceFile` is modelled on its own. `ReadDatFileFromContentFolder` has the call to it commented out, so the packing reads only the radiance section.
- The trailing seek past the remaining configurations is a comment in the source and is not modelled.
- The broadcast delegate, the editor callbacks (`PostEditChangeProperty`, `OnSliderChangeFinished`, `OnSliderUpdate`, `OnVariableChanged`), the timers, and all rendering and GPU upload code are engine glue. The broadcast is a counter.
- The UI clamp metadata on `FShaderControlData` is never enforced in code. The commented-out spectral-response table and the log messages are not code.
- The default file name `SkyModelDatasetGround.dat` is not modelled: file names play no role once the handle is open.

## Findings

| source | as written | input that shows it | evidently intended | confidence | as-written member | corrected member |
|---|---|---|---|---|---|---|
| Plugins/Wil21Model/Source/Wil21Model/Private/DatProcessor.cpp:55-60 | The bracket scan starts at `VisIdx = 0` and then reads `VisibilitiesRadInFile[VisIdx - 1]` | `SingleVisibility` = NaN with at least two on-disk visibilities: every guard comparison is false, so the scan stops at 0 and index -1 is read. Also request 5.0 on the grid NaN, 10.0: the guards pass because comparisons with the NaN at index 0 are false | Start the scan at 1, which is equivalent whenever neither the request nor axis[0] is a NaN | not executed | Visibility.NaNRequestReadsBeforeGrid, Visibility.NaNFirstPointReadsBeforeGrid | Visibility.SelectBrackets |
| Plugins/Wil21Model/Source/Wil21Model/Private/DataProcessorActor.cpp:18-107 | The reader appends the kept visibilities to `Result.VisibilitiesRad` without clearing it, and the actor reads into the `SkyModelData` it keeps | The constructor reads with visibility 0 and keeps the whole grid of n >= 2 points; a later read with 23.8 inside the grid leaves more than n visibilities (one or two appended), so `TotalConfigs` counts too many and `SkippedConfigsEnd` is negative | Clear the kept visibilities before selecting, so they are exactly the selection | not executed | Visibility.KeptVisibilitiesAsWritten, Visibility.RereadOverrunsGrid, Actor.DefaultRereadOverrunsGrid | Visibility.SelectVisibility |
