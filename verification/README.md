# Gem16 offline tooling: a Dafny model

The repository serves a Gemma model from a CUDA engine. Around the engine stands a set of offline Python tools that
build weight images, quantize and check numbers, read and write binary files, keep resumable journals and count
things for published reports. This project models those tools and proves what they are for.

| module | what it models |
|---|---|
| `Arena`, `Tiling`, `DeviceImage`, `DeviceImageWriter`, `DeviceImageBytes` | the device-image builder: an aligned arena plan, the Row-8/K-64 tiling through a bounded staging buffer, zeroed gaps; the result byte for byte |
| `TrellisImage`, `TrellisSource`, `TrellisManifest` | the Trellis35 image: which sources are accepted, the streaming concatenation, the address map; the accepted manifests in numbers |
| `Nearest`, `MiniFloat`, `Nvfp4`, `Nvfp4Bytes`, `Requantize`, `Bf16`, `Bf16Double`, `TopK` | the numeric oracles: nearest-code search, E4M3FN and E2M1, NVFP4 blocks, BF16 rounding, top-k routing |
| `StateFormat`, `StateDump`, `StateLayout`, `StateWriter` | the layer-state dump: the loader of versions 1 to 5, the file in numbers, and the writer of version 5 |
| `Safetensors`, `SafetensorsFile`, `Intervals` | the fixture writer, the header reader, and the overlap check of both readers; written and accepted files byte for byte |
| `Journal`, `ResumeRuns`, `ResumeStatus`, `ResumeRecovery`, `JournalResults` | the prediction journal, the crash/resume state machine around it, when its status is right, which runs can finish, and the published results in numbers |
| `BlobStore`, `BlobAccounting`, `BlobRecovery` | the content-addressed model cache: preflight, downloads with their partial files, install loop, verification; how far the disk grows; what failed downloads leave behind |
| `McNemar`, `SpecCounters`, `SplitAudit`, `RepeatSearch`, `BlockReplace`, `BlockPage` | exact counting, searching and text replacement |
| `Basics`, `Bytes`, `Arithmetic`, `Ordering` | shared types, little-endian fields, arithmetic and sorting |

Loops and in-place updates of the tools are methods over arrays, sequences and class fields. Each is proved against
a specification function or predicate, and the lemmas state what the tools promise about those. Exceptions become
`Err` or `false`. The number formats are those of sections 5.3.1 and 5.3.3 of the OCP Microscaling Formats (MX)
Specification v1.0, and ties are those of section 4.3.1 of IEEE 754-2019. Counts and sizes that the tools pin
(1285 and 1045 tensors, the payload byte count) are parameters; the Trellis35 byte sizes and its region table are
constants because the address map depends on them.

Hashes are an uninterpreted function from bytes to text. JSON is an encoder/decoder pair that returns what was
encoded, also behind trailing spaces. Files are byte sequences, the network is a parameter (what it offers), and
every other reading of a clock, a device or a server is outside the model.

## Where the code does less than one might expect

The proofs follow the code. These are the places where a natural claim is false of it, with the lemma that shows it:

- The McNemar p-value does not exist from 1024 discordant pairs on: converting 2^n to a double raises an overflow,
  whatever the tail is (`LargeSplitRaises`, exact in `McnemarPIsTwoSidedTail`).
- A Safetensors file is refused when a shape overflows 64 bits before a zero dimension makes it empty
  (`ZeroHidesOverflow`), and a tensor named `__metadata__` is skipped (`MetadataNameIsLost`, exact in
  `LosslessExactly`). `RoundTrip` has the exact condition.
- The resume status lags from the write of the last row until the next publish, so a crash there leaves a complete
  journal marked in progress (`StatusLagsAfterCrash`); an empty plan lags from the creation of its state file
  (`EmptyPlanLags`). `StatusStep` has the exact condition for a step, `ReachableStatus` for a whole run.
- A crash inside a row blocks every later attempt (`TornIsFinal`). A crash that loses only the newline of a row
  leaves a journal that loads, and that the next append ruins: it can finish exactly when that row was the last one
  planned (`CrashDecides`, `ResumeFinishesExactly`).
- Quantizing a row again does not always store the same bytes: two short intervals of small block scales move
  (`SomeBlockMoves`, exact in `RequantizeExactly`).
- Replacing a block is not "last write wins" when the first body quotes its own end marker
  (`QuotedEndMarkerDrifts`, exact in `LastWriteWins`).
- On a page with carriage returns an insertion rewrites the text around it (`CarriageReturnIsRewritten`, exact in
  `FileBlockReads`).
- BF16 rounding applied twice is refused when the first result is infinite (`HalfWayOverflows`, exact in
  `RoundIdempotent`). A Python float is rounded to a float32 first, and then the result is not always the nearest
  BF16 (`DoubleRoundingMisses`, exact in `DoubleRoundingExactly`).
- The speculative-counter test accepts a negative accepted count (`NegativeAcceptedPasses`, exact in
  `AcceptsExactlyRealizable`).
- The capacity preflight undercounts when a lock demands two sizes for one object id (`PreflightUndercounts`, exact
  in `PreflightAccounting`).
- An accepted preflight does not protect the reserve from a server that sends more than the lock demands: the body is
  written to the partial file without a bound and kept (`LongBodyBreaksReserve`; `AcceptedPreflightHolds` has the
  proviso, exact for one entry in `OneEntryExactly`). An over-long partial file then blocks its entry for good
  (`OverlongIsFinal`), and so does a complete one that a crash leaves (`CrashLeavesFullPartial`).
- The repeat search answers zero, without checking it, when even zero repeats are over the target
  (`ZeroIsUnchecked`, exact in `StepIsLargest`).
- The state writer records every cache type other than bfloat16 as the checkpoint's FP8; the round trip is to that
  recorded mode (`DumpRoundTrip`).
- The Trellis35 concatenation copies the padding between tensors from its source; it does not zero it
  (`AcceptedSourceMap`).

## Model

| member | source | states |
|---|---|---|
| Arena.AlignUpLeast | tools/build_gemma4_26b_device_image.py:103-104 | the aligned value is the least multiple of 256 at or above the value |
| Arena.AlignUpMask | tools/build_gemma4_26b_trellis35_device_image.py:269-270 | the number whose binary digits are those of v + 255 with the low eight cleared, on unbounded integers as in the source, is the rounded value and no other |
| Arena.PlaceUnique | tools/build_gemma4_26b_device_image.py:222-239 | any slots that each start at the first aligned offset after the one before are the planner's slots: greedy packing of given lengths is unique, and so is its end |
| Arena.OwnerIsUnique | tools/build_gemma4_26b_device_image.py:320-336 | in ordered slots an address belongs to at most one tensor, found by the ownership function, and to none exactly when no slot holds it |
| Arena.ImageIsDetermined | tools/build_gemma4_26b_device_image.py:320-340 | payloads in their slots and zeros everywhere else fix every byte of the arena |
| Tiling.TileAddressFormula | tools/build_gemma4_26b_device_image.py:276-296 | byte (r, k, b) goes to 8tKB + kgB + (r - 8t)B + b with t = r/8 and g rows in the tile; the source offset is (rK + k)B + b |
| Tiling.TilingIsBijection | tools/build_gemma4_26b_device_image.py:276-296 | for all rows, blocks and widths, ragged tail included: the tile addresses are exactly [0, R*K*B), each used by one byte, and the tiled tensor holds that source byte there |
| Tiling.SourceIndexInjective | tools/build_gemma4_26b_device_image.py:276 | different coordinates are different source bytes, so the tiling loses and repeats none |
| Tiling.StagedIsTiled | tools/build_gemma4_26b_device_image.py:283-296 | one transposed staging buffer, of whole tiles or the tail, is the matching stretch of the tiled tensor |
| DeviceImage.TensorPlan | tools/build_gemma4_26b_device_image.py:179-239 | the scan accepts exactly the manifests whose records are valid, distinctly named and of the expected count and bytes, and returns the greedy plan in name order |
| DeviceImage.PlanIgnoresRecordOrder | tools/build_gemma4_26b_device_image.py:194-239 | permuting the manifest's records changes neither acceptance nor plan |
| DeviceImageWriter.GeometryExtent | tools/build_gemma4_26b_device_image.py:269-276 | the byte-count check makes a tiled tensor exactly rows x k-blocks x bytes per block |
| DeviceImageWriter.WriteTiled | tools/build_gemma4_26b_device_image.py:263-296 | for every staging size the in-place loop leaves the tiled tensor at its offset and changes no byte outside it |
| DeviceImageWriter.WriteTensor | tools/build_gemma4_26b_device_image.py:325-336 | a wrong hash or bad tile geometry is an error; otherwise the tensor's slot holds its payload and nothing else changes |
| DeviceImageWriter.WriteImage | tools/build_gemma4_26b_device_image.py:320-340 | whatever the arena held before, it ends as the image of the plan; it fails exactly when some tensor's payload is an error |
| DeviceImageWriter.BuildImage | tools/build_gemma4_26b_device_image.py:379-386 | planning and writing together produce a function of manifest and shards alone, for every staging size |
| DeviceImageWriter.BuildIgnoresRecordOrder | tools/build_gemma4_26b_device_image.py:179-340 | the built image does not depend on the order of the manifest's records |
| DeviceImageWriter.BuiltImage | tools/build_gemma4_26b_device_image.py:179-340 | the planned tensors are the manifest's records and nothing else; each one's payload is in its own slot, no address is in two slots, every other address is zero, and the size is a multiple of 256 |
| DeviceImageBytes.BuildSucceedsExactly | tools/build_gemma4_26b_device_image.py:153-340 | a build succeeds if and only if the counts of records and bytes are the expected ones, no name stands twice, and every record has a name, a layout, a 64-character hash that matches, a range of its stated length inside its shard behind a header of 2 to 2^28 bytes, shapes without negative dimensions, and, for the two tiled layouts, whole blocks and the bytes its own shape needs |
| DeviceImageBytes.BuiltBytes | tools/build_gemma4_26b_device_image.py:179-340 | the finished image in the manifest's fields: records in name order, each at the first multiple of 256 from the end of the one before; a layout ending in sm120_row8_k64 is tiled with 32-byte blocks of 64 logical columns, one ending in sm120_row8_group16_e4m3 with 4-byte blocks of 4 physical columns, each source byte at its tile address; any other layout is copied as it stands; zeros elsewhere |
| DeviceImageBytes.EndsWithExactly | tools/build_gemma4_26b_device_image.py:329-331 | the layout test holds exactly when some prefix precedes the suffix |
| Ordering.LessByFirstDifference | tools/build_gemma4_26b_device_image.py:194 | names compare at the first place where they differ: the smaller character, or the end, comes first |
| TrellisImage.CheckedShape | tools/build_gemma4_26b_trellis35_device_image.py:156-168 | accepts exactly one or two positive dimensions whose true product fits the image: the quotient test never rejects a fitting shape |
| TrellisImage.CompactNonRouted | tools/build_gemma4_26b_trellis35_device_image.py:273-329 | accepts exactly the well-formed manifests in name order whose slots are the greedy packing of their own lengths and end at the arena size |
| TrellisManifest.LayoutExactly | tools/build_gemma4_26b_trellis35_device_image.py:171-205 | a record's layout is admitted if and only if it is one of seven, each with its storage type, its physical shape as a function of the logical one, and its bytes per logical element |
| TrellisManifest.AcceptedExactly | tools/build_gemma4_26b_trellis35_device_image.py:273-329 | a non-routed manifest is accepted if and only if its records are of the expected count, well-formed, in strict name order, each at the first multiple of 256 from the end of the one before, and the last one ends in the last 256 bytes of the arena |
| TrellisImage.NamesDistinct | tools/build_gemma4_26b_trellis35_device_image.py:301-304 | names that each exceed the one before are all distinct, so the duplicate test never decides |
| TrellisImage.AcceptedPackingIsForced | tools/build_gemma4_26b_trellis35_device_image.py:308-328 | an accepted manifest has the only greedy packing of its lengths, the one the device-image planner computes for the same lengths, with the same arena |
| TrellisImage.RegionsTileLayer | tools/build_gemma4_26b_trellis35_device_image.py:68-83 | the ten regions are aligned and every offset of a layer is in exactly one |
| TrellisImage.StreamConcat | tools/build_gemma4_26b_trellis35_device_image.py:452-483 | for every positive chunk size the result is the payloads in order when their sizes add up to the image, and an error otherwise |
| TrellisImage.LocateIsUnique | tools/build_gemma4_26b_trellis35_device_image.py:68-83 | every image address is described by exactly one tensor offset, padding address or layer region offset |
| TrellisImage.AddressMap | tools/build_gemma4_26b_trellis35_device_image.py:452-483 | for an accepted manifest the concatenation has the image size and holds at each address the byte of the payload that describes it |
| TrellisSource.CheckRates | tools/build_gemma4_26b_trellis35_device_image.py:338-345 | a rate map passes exactly when it is 64 threes and 64 fours in some order |
| TrellisSource.CompactFamily | tools/build_gemma4_26b_trellis35_device_image.py:332-356 | a layer manifest passes exactly when its rate map does and it lists each region of the family with the expected offset and size |
| TrellisManifest.LayerExactly | tools/build_gemma4_26b_trellis35_device_image.py:68-83 | both families of a layer pass if and only if both rate maps are 64 threes and 64 fours and the ten regions stand under their names at their offsets with their sizes |
| TrellisSource.ValidateV1 | tools/build_gemma4_26b_trellis35_device_image.py:359-438 | accepts exactly the sources with the pinned identity, an accepted non-routed manifest, and equal layer indexes in layer order with full payloads and accepted manifests; returns the payloads in image order |
| TrellisSource.BuildV2 | tools/build_gemma4_26b_trellis35_device_image.py:524-635 | an accepted source always has the image's extent, so with any positive chunk size the build yields the concatenation and never fails on its size |
| TrellisSource.AcceptedSourceMap | tools/build_gemma4_26b_trellis35_device_image.py:359-483 | every address of an accepted source's image has one location; in a layer it is in a region that this layer's manifest lists, and holds that layer file's byte; elsewhere it holds the non-routed byte |
| Nearest.Search | tools/compare_nvfp4_quant.py:44-54 | the loop over the running error computes the nearest code of `NearestIsTheNearest` |
| Nearest.NearestIsTheNearest | tools/compare_nvfp4_quant.py:44-54 | for any strictly increasing table the search's code is the only one that is closest, and even when another is as close |
| Nearest.NearestMonotone | tools/compare_nvfp4_quant.py:44-54 | a larger value never gets a smaller code |
| MiniFloat.LevelsIncrease | tools/compare_nvfp4_quant.py:33-41 | the decoded tables are strictly increasing: all 127 E4M3FN levels and the eight E2M1 levels |
| MiniFloat.LevelsByFormula | tools/compare_nvfp4_quant.py:33-41 | every level of the two tables is the one its exponent and mantissa give, in units of 2^-9 and 2^-2 |
| MiniFloat.EncodersExactly | tools/compare_nvfp4_quant.py:57-65 | a scale gets a code if and only if that is the closest level, even in a tie, or the top code from 448 on; a value gets a nibble if and only if that has its sign and the closest level, even in a tie |
| MiniFloat.DecodersAgree | tools/gemma4_26b_moe_oracle.py:208-216 | the reader's decoder is the quantizer's on the low seven bits with the sign on top, and refuses exactly 0x7F and 0xFF |
| MiniFloat.DecodersExactly | tools/gemma4_26b_moe_oracle.py:208-222 | numbers outside a byte, and nibbles outside four bits, are refused; a nibble is a sign and one of the eight levels |
| MiniFloat.EncodeDecodeE4M3 | tools/compare_nvfp4_quant.py:57-60 | encoding inverts decoding on codes 0 to 0x7E |
| MiniFloat.EncodeErrorE4M3 | tools/compare_nvfp4_quant.py:57-60 | the stored scale is off by at most 2^-10 below 2^-6 and by at most one part in sixteen from there to 448 |
| MiniFloat.EncodeMonotoneE4M3 | tools/compare_nvfp4_quant.py:57-60 | the encoder is monotone, across saturation too |
| MiniFloat.EncodeDecodeE2M1 | tools/compare_nvfp4_quant.py:63-65 | all sixteen nibbles survive decoding and encoding, negative zero included |
| MiniFloat.EncodeErrorE2M1 | tools/compare_nvfp4_quant.py:63-65 | a stored value is off by at most one inside the table, by the overshoot above it, and anything over 5 gets the top level |
| Nvfp4.Oracle | tools/compare_nvfp4_quant.py:68-94 | the in-place block loop fills both byte arrays with the specified nibble pairs and scales, or refuses an empty or ragged input |
| Nvfp4.DequantizeRow | tools/gemma4_26b_moe_oracle.py:225-237 | the reader refuses bad geometry, a non-positive divisor or any invalid scale, and else returns every column's value |
| Nvfp4Bytes.QuantizeExactly | tools/compare_nvfp4_quant.py:68-94 | two byte strings are what the quantizer stores if and only if byte b of the scales encodes one sixth of the largest magnitude of values 16b to 16b + 15 times the divisor, and the low half of byte i/2 for even i, the high half for odd i, encodes value i in units of the stored scale over the divisor, or is zero behind a zero scale |
| Nvfp4Bytes.ReadExactly | tools/gemma4_26b_moe_oracle.py:208-237 | a row is what the reader returns if and only if the extents fit, the divisor is positive, no scale byte is 0x7F or 0xFF, and each value has the product of the two signs and, times the divisor, the product of the two levels |
| Nvfp4.ReadBack | tools/compare_nvfp4_quant.py:68-94 | a quantized row always reads back under its divisor; every stored nibble comes back, and each value is its level times its block's scale over the divisor |
| Nvfp4.ErrorInScales | tools/compare_nvfp4_quant.py:76-93 | for every block the error times the divisor is at most the stored scale or six times what rounding took off the raw scale |
| Nvfp4.ErrorBound | tools/gemma4_26b_moe_oracle.py:225-237 | reading back is within 17/96 of the block maximum while the raw scale is in [2^-6, 448], within 2^-6 over the divisor below, and no worse than the overshoot above |
| Requantize.RequantizeExactly | tools/compare_nvfp4_quant.py:68-94 | quantizing the row that was read back stores the same bytes if and only if no block has a raw scale, in units of 2^-9, strictly between 1/2 and 7/12 or from 3/2 to 5/3 |
| Requantize.ScaleSurvives | tools/compare_nvfp4_quant.py:76-82 | a block scale encodes to the same code again exactly outside those intervals |
| Requantize.SomeBlockMoves | tools/compare_nvfp4_quant.py:68-94 | one value among fifteen zeros whose bytes change when quantized again |
| Bf16.MaskNeverWraps | tools/gemma4_26b_moe_oracle.py:73-78 | for a finite pattern the rounding addition stays below 2^32 |
| Bf16.RefusedExactly | tools/gemma4_26b_moe_oracle.py:73-75 | refused are exactly the patterns whose exponent field is all ones |
| Bf16.RoundsToNearestEven | tools/gemma4_26b_moe_oracle.py:73-78 | for every finite pattern, subnormals and carries included, no pattern with a clear low half is closer in value than the result, the result is even in a tie, and the sign is kept |
| Bf16.OverflowThreshold | tools/gemma4_26b_moe_oracle.py:73-78 | the result is infinite exactly from the halfway point between the largest BF16 and 2^128 |
| Bf16.RoundIdempotent | tools/gemma4_26b_moe_oracle.py:73-78 | rounding a result again changes nothing, and is refused exactly when the first rounding overflowed |
| Bf16.HalfWayOverflows | tools/gemma4_26b_moe_oracle.py:73-78 | the pattern 0x7F7F8000 rounds to infinity, which a second call refuses |
| Bf16.RoundSignSymmetric | tools/gemma4_26b_moe_oracle.py:73-78 | the rounding of a negated value is the negated rounding |
| Bf16.RoundMonotone | tools/gemma4_26b_moe_oracle.py:73-78 | rounding preserves the order of the values |
| Bf16Double.DoubleRoundingExactly | tools/gemma4_26b_moe_oracle.py:73-78 | for every magnitude that converts to a float32, the result is the nearest BF16, ties to even, if and only if the float32 step does not land on a midpoint that the argument is off, with the tie going the other way |
| Bf16Double.FloatPatternIsNearest | tools/gemma4_26b_moe_oracle.py:76 | the first of the two roundings finds the closest float32, even in a tie |
| Bf16Double.OverflowsExactly | tools/gemma4_26b_moe_oracle.py:76 | the conversion to float32 raises exactly from 2^128 - 2^103 on |
| Bf16Double.BitsAgree | tools/gemma4_26b_moe_oracle.py:76-78 | the bit trick computes that rounding from the float32 pattern, for either sign |
| Bf16Double.DoubleRoundingMisses | tools/gemma4_26b_moe_oracle.py:73-78 | 1 + 2^-8 + 2^-30 rounds to 1, which is not the nearest BF16 |
| TopK.SelectionIsBest | tools/gemma4_26b_moe_oracle.py:140-155 | the selection is k distinct experts, no k distinct experts have a larger probability sum, and the normalized probabilities sum to one; a valid geometry fails only when no choice has a positive sum |
| TopK.SelectionUnique | tools/gemma4_26b_moe_oracle.py:149 | any arrangement of all experts by probability descending, then id, starts with exactly the selected list |
| TopK.SelectedInOrder | tools/gemma4_26b_moe_oracle.py:140-149 | the selected experts stand by probability descending, the lower id first in a tie, and each comes before every expert left out; lengths, count and scales passed the source's tests |
| TopK.WeightsAreScaledShares | tools/gemma4_26b_moe_oracle.py:150-155 | weight times the selected sum is the expert's probability times its own scale |
| StateDump.LoadState | tools/compare_states.py:74-166 | the offset-threading loader returns the dump or error that the parser specifies, for every byte string |
| StateDump.ParseExact | tools/compare_states.py:74-166 | in all five versions a file loads as a dump exactly when the dump is well-formed and the file is its one encoding |
| StateDump.ParseInjective | tools/compare_states.py:74-166 | no two files load as the same dump |
| StateDump.AcceptedLength | tools/compare_states.py:74-166 | every accepted file has 8 + 40 + 16 per layer + 4 per element bytes |
| StateDump.TruncatedNeverLoads | tools/compare_states.py:74-166 | no proper prefix of the encoding of a dump loads |
| StateLayout.LoadsExactly | tools/compare_states.py:74-166 | a file loads as a dump if and only if it says so in numbers: magic, the seven header fields at bytes 8 to 48, layer after layer without gaps, each with index, flag and key count in 16 bytes and then its words one by one, attention of 4096 or 8192, stages of the hidden width or 15360, keys, values |
| Bytes.UnpackDigits | tools/compare_states.py:20-21 | byte i of a little-endian field is digit i of the number in base 256 |
| StateWriter.WriteDump | tools/dump_vllm_states.py:93-165 | the writer emits the encoding of what was captured, or fails when a layer is missing, a width is wrong or the position exceeds 64 bits; whatever file a failure leaves behind never loads |
| StateWriter.CapturedIsWellFormed | tools/dump_vllm_states.py:93-165 | captures that pass the writer's checks make a dump the loader's checks admit |
| StateWriter.WritableExactly | tools/dump_vllm_states.py:93-160 | captures can be written if and only if every map covers exactly the 48 layers, with 4096 attention words, 2048 keys and values, and 8192 and 512 in each sixth layer, 15360 words in three named stages and 3840 in the seven others |
| StateWriter.DumpRoundTrip | tools/dump_vllm_states.py:93-165 | loading what the writer emits gives version 5, path vLLM, the position, the recorded mode, and 48 layers, each sixth one global, that hold the attention context, the ten stages by name in file order, the keys and the values captured for that layer |
| Intervals.AnyOverlap | tools/compare_manifests.py:153-158 | sorting non-empty ranges and looking at neighbours reports an overlap exactly when two ranges share a byte |
| Intervals.NeighboursExact | tools/gemma4_26b_moe_oracle.py:382-384 | in sorted order neighbouring pairs decide disjointness of all pairs |
| Safetensors.CheckedShape | tools/compare_manifests.py:71-83 | accepts exactly non-negative shapes none of whose prefix products leaves 64 bits, with the true product |
| Safetensors.ReadSafetensorsHeader | tools/compare_manifests.py:93-159 | the reading loop computes the specified records, alignment and shard included, or the error, for every file |
| SafetensorsFile.AcceptedExactly | tools/compare_manifests.py:93-159 | any file is accepted if and only if its header length is 2 to 2^28 and inside the file, the header decodes, every entry but the metadata has a known dtype, dimensions that stay in 64 bits and a range in the payload of exactly the bytes they need, and no two tensors share a byte |
| SafetensorsFile.RecordsExactly | tools/compare_manifests.py:135-155 | the records of an accepted file are its entries but the metadata, each with dtype, shape, absolute offset, length, shard, and the largest power of two up to 4096 that divides the offset |
| Safetensors.SafetensorsBytes | tools/generate_gemma4_26b_compiler_fixture.py:54-68 | the writing loop lays header and payload out as specified, failing only when the header length does not fit its field |
| SafetensorsFile.WrittenFile | tools/generate_gemma4_26b_compiler_fixture.py:54-68 | a written file starts with its header length, a multiple of eight; then the header entries in key order, encoded, with fewer than eight spaces behind; then the tensors' data in name order without gaps; the entries are those tensors with those ranges, and the metadata unless a tensor takes its key |
| Safetensors.EntryAt | tools/generate_gemma4_26b_compiler_fixture.py:57-64 | tensor i's header entry gives its dtype, its shape and the range of the payload that holds its data |
| Safetensors.RoundTrip | tools/compare_manifests.py:93-159 | the reader accepts a written file exactly when the header is within its limit and every tensor is readable; then dtype, shape, range, alignment and shard come back, the bytes at the range are the tensor's data, and no other record appears |
| Safetensors.AlignmentIsLargest | tools/compare_manifests.py:86-90 | the reported alignment is the largest power of two up to 4096 that divides the offset |
| Safetensors.LosslessExactly | tools/compare_manifests.py:119-122 | every tensor comes back exactly when none is named like the metadata key |
| Safetensors.MetadataNameIsLost | tools/compare_manifests.py:119-122 | a one-tensor file under the metadata key is accepted without its tensor |
| Safetensors.ZeroHidesOverflow | tools/compare_manifests.py:71-83 | whatever the codec, the reader refuses the written file of an empty tensor whose dimensions overflow before a zero |
| Journal.LoadPredictionRows | tools/benchmark_quality.py:513-552 | loads exactly the files that are, apart from blank lines, rows for planned, unchanged examples without repeated ids, the last one with or without its newline, and returns their rows |
| JournalResults.LoadableExactly | tools/benchmark_quality.py:513-552 | for a plan without repeated ids a journal loads if and only if every line is a row with the id, problem and target of a planned example and no id stands twice |
| Journal.PredictionsWriter.Write | tools/benchmark_quality.py:485-585 | writes one row, field by field from example and outcome, at the end of the file for a first repeat of an example not yet done, else refuses and leaves it; behind a row without its newline the two run together, otherwise the completed set stays the file's ids |
| Journal.AggregateOfContents | tools/benchmark_quality.py:627-645 | the aggregate depends only on which rows there are, not on their order |
| Journal.CompleteJournalIsIdeal | tools/benchmark_quality.py:588-645 | examples and aggregate of a complete journal of a deterministic sampler equal those of one uninterrupted run, in whatever order the rows stand |
| JournalResults.SerializedExactly | tools/benchmark_quality.py:588-624 | the example list of any journal is the planned examples that have a row, each once, in plan order, with what that row records |
| JournalResults.FinishedRunResults | tools/benchmark_quality.py:588-815 | after any run that ends complete, entry i is planned example i with its own text, a score of one or zero, extraction, tokens and finish reason; the score times the examples is the number of nonzero scores, the three rates times the non-empty finish reasons are the numbers of stop, of length and of others, and the token totals are sums over the outcomes |
| ResumeRuns.StepIsSafe | tools/benchmark_quality.py:696-756 | every step of an attempt, and every crash between, inside or at the end of a write, keeps the invariant, the identity in the state file, and all terminated lines of the journal |
| ResumeRuns.ReachableIsSafe | tools/benchmark_quality.py:696-756 | after any run from an empty directory ids are distinct and planned and a complete status means a complete journal; from any point on the identity stays and no terminated row is lost |
| ResumeRuns.LengthDecides | tools/benchmark_quality.py:744-746 | for a loadable journal the length comparison holds exactly when every planned id has a row |
| ResumeRuns.PublishDecides | tools/benchmark_quality.py:744-756 | a publish writes complete exactly when each planned id appears once, else partial |
| ResumeRuns.WritersShareContract | tools/benchmark_quality.py:457-482 | in any run, all attempts that reach the writer have one protocol and one list of planned ids |
| ResumeStatus.StatusStep | tools/benchmark_quality.py:696-756 | from any reachable system: an exact status becomes inexact exactly by writing the one row that is missing or by creating the state of an empty plan, and an inexact one becomes exact exactly by a publish with a loadable journal |
| ResumeStatus.ReachableStatus | tools/benchmark_quality.py:696-756 | after any run from an empty directory the status is exact if and only if every completing step was followed by a publish |
| ResumeStatus.StatusLagsAfterCrash | tools/benchmark_quality.py:726-756 | a run whose crash leaves a complete journal with status in progress |
| ResumeStatus.EmptyPlanLags | tools/benchmark_quality.py:475-482 | a state file created for no examples says in progress over a complete journal |
| ResumeRecovery.CrashDecides | tools/benchmark_quality.py:565-581 | from a recoverable system a crash between writes leaves it recoverable, one inside an accepted row never does, and one that loses only the newline does exactly when that row is the last one planned |
| ResumeRecovery.TornIsFinal | tools/benchmark_quality.py:513-552 | with a torn line and no writer at work no steps change the journal or the state file |
| ResumeRecovery.OrphanIsKept | tools/benchmark_quality.py:702-706 | no steps whatever change a disk with a journal and no state file |
| ResumeRecovery.FinishedRunIsIdeal | tools/benchmark_quality.py:684-815 | any mix of attempts, early ends and crashes, torn writes included, that ends complete gives the examples and aggregate of one uninterrupted attempt |
| ResumeRecovery.ResumeFinishesExactly | tools/benchmark_quality.py:684-756 | after any attempts and crashes one uninterrupted attempt ends complete if and only if no line is torn and a last row without its newline is the last one planned; otherwise no steps whatever end complete |
| BlobStore.Cache.MissingBlobBytes | tools/fetch_model.py:230-245 | the loop over a seen set computes the specified count |
| BlobAccounting.AcceptedPreflightHolds | tools/fetch_model.py:248-272 | when entries of one key agree on size and no body is longer than what its entry still asks for: at every moment of the loop, partial files included, the disk has grown by at most the configured maximum and the reserve is free |
| BlobAccounting.OneEntryExactly | tools/fetch_model.py:248-272 | for a lock of one entry every accepted preflight keeps its reserve if and only if the partial file grows by at most the size of the entry |
| BlobAccounting.LongBodyBreaksReserve | tools/fetch_model.py:345-359 | one byte accepted, five sent: no blob is put in place and five bytes stay on disk |
| BlobStore.Cache.Download | tools/fetch_model.py:311-369 | resumes behind a partial file whose sidecar is absent or matches, appends whatever is sent, keeps the file on a wrong size, deletes it on a wrong digest, and turns a match into the blob; refuses an over-long partial file or a resumption without a range |
| BlobRecovery.DownloadOutcomes | tools/fetch_model.py:311-369 | every outcome of a download by the files of its key: a partial file beside a sidecar of another address, size or digest is dropped, otherwise the body goes behind it; what then stays or goes as blob, partial file and sidecar, and whether the entry is installed; other keys keep theirs |
| BlobRecovery.OtherOutcomes | tools/fetch_model.py:283-298 | the same for a blob already there, for verifying only, and for an imported file |
| BlobStore.Cache.InstallEntry | tools/fetch_model.py:275-308 | a present blob is kept, a corrupt one is an error and is never replaced, a missing or wrong-sized one is replaced only by bytes of the demanded size and digest, downloaded or imported; the whole new disk is stated |
| BlobStore.Cache.InstallAll | tools/fetch_model.py:405-423 | the loop carries on after failures and counts them |
| BlobAccounting.PreflightAccounting | tools/fetch_model.py:230-245 | with everything delivered the loop puts in place the counted bytes plus those of entries that change a key's size; for non-empty files the count is exact if and only if entries of one key agree on size, whatever blobs are corrupt |
| BlobAccounting.PreflightUndercounts | tools/fetch_model.py:230-245 | a lock with two sizes for one key: one byte counted, three put in place |
| BlobAccounting.BytesAreConserved | tools/fetch_model.py:405-423 | when entries of one key agree on size: whatever is delivered, the bytes of the blobs put in place plus the bytes still missing afterwards equal the bytes counted before |
| BlobStore.VerifyOnlyDecides | tools/fetch_model.py:285-287 | verifying changes nothing and reports no failure exactly when every blob is in place |
| BlobStore.CleanRunCompletes | tools/fetch_model.py:405-423 | when entries of one key demand one blob: a run without failures leaves every entry's blob in place |
| BlobRecovery.HonestRunIsClean | tools/fetch_model.py:311-369 | when entries of one key demand one blob: against an honest server a run is free of failures if and only if, before it, for the first entry of each key no stored blob is corrupt and the kept partial file is absent, or shorter than the blob and completed by the rest of it |
| BlobRecovery.WrongSizeStays | tools/fetch_model.py:357-359 | a body of the wrong size leaves a partial file that the next download resumes from, over-long exactly when the total was too long |
| BlobRecovery.OverlongIsFinal | tools/fetch_model.py:333-335 | once a partial file is over-long no answers of the network, however many, install the entry or change that file |
| BlobRecovery.CrashLeavesFullPartial | tools/fetch_model.py:345-369 | a crash before the move leaves a complete partial file, and the next download of the entry from an honest server fails |
| BlobStore.CompleteIsStable | tools/fetch_model.py:405-423 | a further run over a complete store writes nothing and fails nothing, whatever is offered |
| McNemar.ExactMcnemarP | tools/compare_quality_benchmarks.py:48-54 | the summing loop computes the doubled, capped tail, or the overflow of a conversion to a double |
| McNemar.CombIsCoefficient | tools/compare_quality_benchmarks.py:53 | the coefficient used is n! / (k! (n - k)!) |
| McNemar.McnemarPIsTwoSidedTail | tools/compare_quality_benchmarks.py:48-54 | below 1024 discordant pairs the result is the sum of C(n, k) / 2^n over all k at least as far from n/2 as the observed split; from 1024 on it is an overflow error |
| McNemar.LargeSplitRaises | tools/compare_quality_benchmarks.py:48-54 | 1024 regressions and no improvement raise an error |
| McNemar.McnemarPSymmetric | tools/compare_quality_benchmarks.py:48-54 | swapping the two discordant counts does not change the result or the error |
| McNemar.CapExactlyWhenEqual | tools/compare_quality_benchmarks.py:48-54 | the cap at one is active exactly when the two counts are equal |
| McNemar.McnemarPFallsWithImbalance | tools/compare_quality_benchmarks.py:48-54 | with the total fixed, a more uneven split never has a larger result |
| McNemar.PairedCounts | tools/compare_quality_benchmarks.py:87-104 | the four counters are the tallies of the four outcome pairs, partition the samples, and add up to each system's own correct count |
| SpecCounters.InferenceIsExact | tools/benchmark_wikipedia_workload.py:835-876 | for every run of a prefill token and groups within the depth limit, proposed and accepted drafts, group count, rejections and target forwards are recovered, and the depth flag holds exactly when every group drafted to the limit |
| SpecCounters.AcceptsExactlyRealizable | tools/benchmark_wikipedia_workload.py:843-850 | with a non-negative accepted count the test passes exactly the totals that some run produces; a negative one passes exactly when the proposed drafts fit the groups it invents |
| SpecCounters.MeanIsTokensPerGroup | tools/benchmark_wikipedia_workload.py:862-865 | the reported mean acceptance length is the tokens after the prefill per group |
| SpecCounters.NegativeAcceptedPasses | tools/benchmark_wikipedia_workload.py:843-850 | totals that pass the test and that no run produces |
| SplitAudit.AuditDisjoint | tools/freeze_gemma4_26b_corpus.py:102-127 | each identity is reported once less than the number of splits that contain it, each report names two neighbouring holders, and the audit passes exactly when no two splits have records with equal document hash or equal token-span hash |
| SplitAudit.ContainsExactly | tools/freeze_gemma4_26b_corpus.py:107-111 | a split contains a document hash, or a token-span hash, exactly when one of its records carries it as that |
| SplitAudit.IdentitiesAt | tools/freeze_gemma4_26b_corpus.py:105-111 | record k is met as its document hash and then as its token-span hash |
| SplitAudit.OverlapCountIsExcessSum | tools/freeze_gemma4_26b_corpus.py:123-127 | the reported count is the sum over identities of the number of holding splits less one |
| RepeatSearch.LargestRepeatCount | tools/benchmark_gemma4_26b_wp8_text.py:209-225 | for any counter that finally exceeds the target, the search ends at a count that fits while the next does not, after 2 log2(n) + 3 evaluations, or 2 when n is zero |
| RepeatSearch.StepIsLargest | tools/benchmark_gemma4_26b_wp8_text.py:209-225 | for a monotone counter that answer is the largest that fits and the only one, exactly when zero fits |
| RepeatSearch.ZeroIsUnchecked | tools/benchmark_gemma4_26b_wp8_text.py:209-225 | a monotone counter for which the answer is zero and zero does not fit |
| BlockPage.Page.ReplaceBlock | benchmarks/render_decode_five_steps_final_evidence.py:47-58 | the file becomes the replaced text of the page as it reads, or is left alone when a marker or the anchor is missing |
| BlockReplace.FindIsFirst | benchmarks/render_decode_five_steps_final_evidence.py:47-58 | the marker search finds the first occurrence, or there is none |
| BlockReplace.ReplacedExactly | benchmarks/render_decode_five_steps_final_evidence.py:47-58 | a page is the result if and only if it is the text with the block from the first start marker to the end of the first end marker behind it, or, without a start marker, the text with the block and an empty line in front of the first anchor; otherwise there is no result |
| BlockReplace.RStripExactly | benchmarks/render_decode_five_steps_final_evidence.py:50 | stripping removes exactly the white space at the end of the body |
| BlockReplace.LastWriteWins | benchmarks/render_decode_five_steps_final_evidence.py:47-58 | writing b2 over b1 gives what writing b2 alone gives if and only if the stripped b1 does not contain the end marker; with b1 = b2 this is idempotence |
| BlockReplace.WrittenBlockReads | benchmarks/render_central_llama_repeat_evidence.py:26-37 | in the text, a written block reads back as its stripped body, and the text around it is the text that was around the old block, or the whole old text on first insertion |
| BlockPage.LastFileWriteWins | benchmarks/render_decode_five_steps_final_evidence.py:47-58 | last write wins between files, reading with universal newlines included, for every page and bodies, if and only if the stripped first body, read back, does not contain the end marker |
| BlockPage.FileBlockReads | benchmarks/render_decode_five_steps_final_evidence.py:47-58 | in the file the block reads back and the text around it is what was around as it reads; on first insertion it is the old file byte for byte if and only if that has no carriage return |
| BlockPage.ReadTextLines | benchmarks/render_decode_five_steps_final_evidence.py:48 | a carriage return, with or without a newline behind it, reads as one newline |
| BlockPage.CarriageReturnIsRewritten | benchmarks/render_decode_five_steps_final_evidence.py:47-58 | a page with a carriage return whose text an insertion changes |
| BlockReplace.QuotedEndMarkerDrifts | benchmarks/render_decode_five_steps_final_evidence.py:47-58 | a page and a body for which writing twice differs from writing once |

## Left out

- Nvfp4.Oracle: computes in exact arithmetic; the float32 rounding of each product and quotient is not modelled.
- Nvfp4.DequantizeRow: computes in exact arithmetic; Python's double rounding is not modelled.
- TopK.SelectionIsBest: `math.fsum` and the divisions are exact; softmax, GELU, normalization and the rest of the router are not modelled.
- McNemar.ExactMcnemarP: overflow is modelled, rounding is not: below the limit integers convert exactly and the quotient is exact.
- SpecCounters.MeanIsTokensPerGroup: the quotient is exact.
- RepeatSearch.LargestRepeatCount: requires a counter that exceeds the target from some point on; without one the source's first loop does not end.
- BlockReplace.LastWriteWins: for markers without a newline and without `<`, which all callers use.
- BlockPage.Page.ReplaceBlock: files are written with plain newlines, as on Linux; text decoding is not modelled.
- Journal.LoadPredictionRows: the limit on line length and the timing fields are not modelled; a line that is no valid row is one case, whatever is wrong with it.
- ResumeRuns.ReachableIsSafe: a crash stops at most the write of one row, and the state file is replaced atomically; fsync itself is not modelled.
- Safetensors.RoundTrip: JSON text, and the rejection of duplicate keys and non-finite constants, are abstract; other header metadata is not modelled.
- Intervals.AnyOverlap: the rest of the oracle's reader (`SafeTensorReader.record`, its header cache and dtype checks) is not modelled.
- StateDump.LoadState: words are kept as 32-bit patterns; their float values and the metrics over them are not modelled.
- BlobStore.Cache.InstallEntry: links into snapshots, verification markers and path checks are not modelled; sidecars and markers count no bytes, and an imported file counts as if it were copied.
- BlobStore.Cache.Download: a connection that breaks with another error than the one the tool catches ends the whole run; it is a run of fewer entries whose last disk is one of the moments of `AcceptedPreflightHolds`.
- TrellisSource.ValidateV1: the pinned version, profile, lock, codebook and digest fields of each document are one flag; the SHA256SUMS inventory and path safety are not modelled.
- TrellisImage.StreamConcat: the second pass that hashes the written file, and the refusal to overwrite, are not modelled.
- DeviceImageWriter.BuildImage: existing outputs, the atomic rename and the external lock are not modelled.
- Servers, subprocesses, telemetry and timing, plan generators and compiler front ends, argument parsing, printing and evidence prose are not modelled.
