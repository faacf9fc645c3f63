# wgpu `util` helpers in Dafny

This project models the three host-side helpers in `wgpu/src/util/mod.rs`. They hide byte layout from an application built on wgpu:

- **`make_spirv`** checks a byte buffer and reads it as a SPIR-V module. The length must be a multiple of four. The buffer is read as 32-bit words, either in place or through a copy, depending on its alignment. The first word must be the SPIR-V magic number `0x07230203` (section 2.3 of the Khronos SPIR-V Specification).
- **`DeviceExt::create_buffer_init`** asks the device for a buffer that is mapped at creation. The buffer's size is the contents' length padded to `COPY_BUFFER_ALIGNMENT`, and padding always happens. The contents are copied into the mapped range, then the tail is filled with zeros.
- **`DeviceExt::create_texture_with_data`** cuts one tightly packed data buffer into one `queue.write_texture` call per (layer, mip level). It goes layer by layer, with mips ascending within each layer. Each level's byte count comes from the block size of the texture format.

The modules:

- `Common` (`common.dfy`): the `u8`/`u32` newtypes, `Option` and `Result`, and small arithmetic lemmas.
- `Spirv` (`spirv.dfy`): `make_spirv` is a pure function. Its panics become `Err` values.
- `BufferInit` (`buffer_init.dfy`): `create_buffer_init` is a method. The mapped range is an `array<u8>`, filled by a `forall` copy and then a zero-fill loop.
- `TextureUpload` (`texture_upload.dfy`): `create_texture_with_data` is a method with the two nested loops of the source.
  - It returns the log of `write_texture` calls and the panic that ends the walk early, if there is one.
  - The log is specified against `MipChain` and `PlannedWrite`, a closed-form plan of every (layer, mip) write.

## Model

| member | source | states |
|---|---|---|
| Spirv.MakeSpirv | wgpu/src/util/mod.rs:23-53 | Fails with the length error exactly when the length is not a multiple of 4. Fails with the missing-word error exactly on empty input. Fails with the wrong-magic error, carrying the word found, exactly when word 0 is not `0x07230203`. Otherwise succeeds with `len/4` words, word 0 the magic number, words laid out again giving back the input |
| Spirv.BranchesAgree | wgpu/src/util/mod.rs:34-45 | The copy into zeroed words yields the same words as the aligned in-place view |
| Spirv.MakeSpirvWordAt | wgpu/src/util/mod.rs:34-45 | Word `i` of an accepted module is the little-endian reading of bytes `4i .. 4i+4` |
| Spirv.MakeSpirvIgnoresAlignment | wgpu/src/util/mod.rs:34-45 | The buffer's alignment never changes the outcome |
| Spirv.MakeSpirvRoundTrip | wgpu/src/util/mod.rs:23-53 | Any word sequence starting with the magic number, laid out as bytes, is accepted and read back unchanged |
| Spirv.Reinterpret | wgpu/src/util/mod.rs:34-38 | The in-place view has `len/4` words, and the bytes of word `i` are input bytes `4i .. 4i+4` |
| Spirv.CopyPrefix | wgpu/src/util/mod.rs:40-44 | After copying `n` bytes into `len/4` zeroed words, each byte position below `n` holds its source byte and every other position is still 0 |
| Spirv.CopyWords | wgpu/src/util/mod.rs:40-44 | The owned copy has `len/4` words, and the bytes of word `i` are input bytes `4i .. 4i+4` |
| Spirv.WithByteAt | wgpu/src/util/mod.rs:42 | Storing one byte into a word buffer changes the byte at that position of the buffer and no other |
| Spirv.WordsToBytesAt | wgpu/src/util/mod.rs:34-38 | Word `i` of a word sequence lies at bytes `4i .. 4i+4` of its memory layout |
| Spirv.WordsToBytesOfGroups | wgpu/src/util/mod.rs:34-38 | A buffer whose every 4-byte group spells the matching word is the memory layout of those words |
| Spirv.WithByte | wgpu/src/util/mod.rs:42 | Storing one byte into a word changes that byte lane only |
| Spirv.WordOf | wgpu/src/util/mod.rs:35 | The word read from four bytes splits back into exactly those bytes, least significant first |
| Spirv.WordOfBytesOf | wgpu/src/util/mod.rs:35 | Reading a word's four bytes gives back the word |
| Spirv.WordsToBytesReinterpret | wgpu/src/util/mod.rs:34-38 | Viewing a buffer as words and laying them out again gives back the buffer |
| Spirv.ReinterpretWordsToBytes | wgpu/src/util/mod.rs:34-38 | Laying words out as bytes and viewing them again gives back the words |
| BufferInit.Padding | wgpu/src/util/mod.rs:80 | Padding lies in `1 ..= COPY_BUFFER_ALIGNMENT` and brings the length to a multiple of the alignment |
| BufferInit.PaddedSize | wgpu/src/util/mod.rs:79-81 | The padded size is a multiple of the alignment, strictly above the length, at most one block above it |
| BufferInit.PaddedSizeIsLeast | wgpu/src/util/mod.rs:79-81 | The padded size is the least multiple of the alignment strictly above the length |
| BufferInit.AlignedSizeGainsBlock | wgpu/src/util/mod.rs:80-81 | An already aligned length still gains one full alignment block |
| BufferInit.InitialImage | wgpu/src/util/mod.rs:96-101 | The final mapped bytes have the padded length, the contents as prefix and zeros after them |
| BufferInit.FillMappedRange | wgpu/src/util/mod.rs:96-101 | After the copy and the zero loop, the mapped range is the contents followed by zeros up to the padded size |
| BufferInit.CreateBufferInit | wgpu/src/util/mod.rs:78-105 | The device is asked for the padded size, mapped at creation, with the caller's label and usage. The buffer's bytes at unmap are the contents followed by zeros |
| TextureUpload.IterationShapeSpansDepth | wgpu/src/util/mod.rs:117-127 | Layers × layer depth is the texture's depth, and every layer keeps the texture's width and height. A 3D texture is walked as one layer; any other texture as layers one texel deep |
| TextureUpload.MipLayoutOf | wgpu/src/util/mod.rs:135-148 | Fails with the missing-level error exactly when `at_mip_level` finds no level. Any other failure is the `u32` overflow error for that mip. On success, row pitch and level size both fit in `u32` |
| TextureUpload.MipLayoutSucceedsIff | wgpu/src/util/mod.rs:135-148 | The per-mip arithmetic succeeds exactly when the level exists and both width blocks × block size and that times height blocks are below 2^32 |
| TextureUpload.MipLayoutArithmetic | wgpu/src/util/mod.rs:135-148 | An existing mip level is uploaded at its physical size. Its row pitch is width blocks × block size, and its byte size is row pitch × height blocks |
| TextureUpload.MipLayoutCoversBlocks | wgpu/src/util/mod.rs:140-148 | For a block-aligned physical size, the row pitch times the block width is width times block size, and the level size times the block area is width times height times block size |
| TextureUpload.MipChain | wgpu/src/util/mod.rs:133-148 | Holds the layouts of mips `0, 1, …` in order and stops only at the first mip whose arithmetic fails |
| TextureUpload.SumSizesPrefix | wgpu/src/util/mod.rs:150-171 | The bytes of mips `0 ..= m` are those of `0 .. m` plus mip `m`'s size |
| TextureUpload.SumSizesPrefixBound | wgpu/src/util/mod.rs:150-171 | A run of leading mips holds no more bytes than the whole layer |
| TextureUpload.LayerStartIsProduct | wgpu/src/util/mod.rs:132-171 | Layer `l` starts at `l` times the bytes of one layer |
| TextureUpload.PlannedLogLength | wgpu/src/util/mod.rs:132-133 | The plan holds one write per (layer, mip) |
| TextureUpload.PlannedLogAt | wgpu/src/util/mod.rs:132-133 | Entry `i` of the plan is the write for layer `i / count`, mip `i % count` |
| TextureUpload.PlanPrefix | wgpu/src/util/mod.rs:150-171 | The plan up to any (layer, mip) is contiguous from 0 and ends after the earlier layers and the lower mips |
| TextureUpload.PlanPrefixNextMip | wgpu/src/util/mod.rs:150-171 | Extending the plan by the next mip of the same layer keeps it contiguous and moves its end by that mip's size |
| TextureUpload.PlanPrefixNextLayer | wgpu/src/util/mod.rs:133-134 | The plan through all mips of a layer is the plan at the start of the next layer |
| TextureUpload.ContiguousExtend | wgpu/src/util/mod.rs:150-171 | A contiguous log continued by a slice that starts where it ends stays contiguous and ends where that slice ends |
| TextureUpload.PlannedLogContiguous | wgpu/src/util/mod.rs:132-173 | The planned slices tile `[0, layers × layer bytes)` |
| TextureUpload.PlannedWriteWithinLayers | wgpu/src/util/mod.rs:150-171 | Every planned slice ends within the bytes of all layers |
| TextureUpload.ContiguousStep | wgpu/src/util/mod.rs:150-171 | A slice starting where the log ends keeps the log contiguous and moves its end |
| TextureUpload.ContiguousOrdered | wgpu/src/util/mod.rs:150-171 | In a contiguous log each slice lies wholly before every later slice |
| TextureUpload.ContiguousCovers | wgpu/src/util/mod.rs:150-171 | Every byte below a contiguous log's end lies in exactly one slice |
| TextureUpload.ContiguousConsumedIsSum | wgpu/src/util/mod.rs:150-171 | A contiguous log's end offset is the sum of its slice sizes |
| TextureUpload.PlanPrefixAt | wgpu/src/util/mod.rs:132-171 | Entry `i` of the plan up to (layer, mip) is the write for layer `i / count`, mip `i % count` |
| TextureUpload.PlanPrefixLength | wgpu/src/util/mod.rs:132-171 | The plan up to (layer, mip) holds `layer × count + mip` writes |
| TextureUpload.PlanPrefixFollowsPlan | wgpu/src/util/mod.rs:132-171 | Every plan prefix is in layer-major, mip-ascending order |
| TextureUpload.WalkedLog | wgpu/src/util/mod.rs:132-171 | The walk's state at (layer, mip) gives a contiguous log in plan order, `layer × count + mip` long, ending at the running offset |
| TextureUpload.WalkStep | wgpu/src/util/mod.rs:135-171 | Issuing the write for (layer, mip) moves the walk's state to the next mip |
| TextureUpload.WalkAppend | wgpu/src/util/mod.rs:150-171 | Appending the planned write for (layer, mip), when its slice fits in the data, moves the walk's state to the next mip |
| TextureUpload.WalkNextLayer | wgpu/src/util/mod.rs:132-134 | Finishing a layer's mips moves the walk's state to the next layer |
| TextureUpload.StopOutcome | wgpu/src/util/mod.rs:135-158 | A walk stopped by a failing mip or by a slice past the data ends with the stated outcome |
| TextureUpload.CompleteOutcome | wgpu/src/util/mod.rs:132-173 | A walk through every layer ends with the stated outcome, consuming every layer's bytes |
| TextureUpload.PlannedMipExists | wgpu/src/util/mod.rs:133-135 | Every write of a log in plan order is for a mip level the chain reaches |
| TextureUpload.FollowsPlanBounds | wgpu/src/util/mod.rs:132-134 | A log in plan order stops at a (layer, mip) the mip chain reaches |
| TextureUpload.FollowsPlanIsPrefix | wgpu/src/util/mod.rs:132-171 | A log in plan order is exactly the plan up to the (layer, mip) after its last write |
| TextureUpload.PlanAgrees | wgpu/src/util/mod.rs:132-171 | Write by write, a log in plan order agrees with the plan prefix of its length |
| TextureUpload.CreateTextureWithData | wgpu/src/util/mod.rs:107-176 | A mip count above 255 fails with no write. Otherwise the writes follow the plan, lie within the data, are contiguous from 0 and number at most layers × mips. The walk finishes exactly when all layers × mips were written, having consumed layers × layer bytes. If it stops early, it stops at the next mip, whose slice runs past the data or whose arithmetic fails |
| TextureUpload.FollowsPlanContiguous | wgpu/src/util/mod.rs:150-171 | A log in plan order has contiguous slices from offset 0 |
| TextureUpload.OutcomeContiguous | wgpu/src/util/mod.rs:150-171 | The slices of every outcome start at 0 and each begins where the previous one ended |
| TextureUpload.CompleteUploadIsPlan | wgpu/src/util/mod.rs:132-173 | A finished upload issued exactly the planned writes. Its slices hold layers × layer bytes, no more than the data |
| TextureUpload.UploadSucceedsIff | wgpu/src/util/mod.rs:132-171 | With at least one layer and one mip, the upload finishes if and only if every mip's arithmetic succeeds and the data holds layers × layer bytes |
| TextureUpload.WritesInOrder | wgpu/src/util/mod.rs:132-171 | Earlier writes target a lower layer, or the same layer and a lower mip, and their slices lie wholly before later ones |
| TextureUpload.WriteShape | wgpu/src/util/mod.rs:117-169 | Each write targets an existing mip below the count, at origin `(0, 0, z)`. `z` is an iterated layer, always 0 for 3D textures and below the depth otherwise. Layout offset and rows-per-image are 0. The copy size is the physical size of the mip. Row pitch is width blocks × block size, and slice length is row pitch × height blocks, both below 2^32 |
| TextureUpload.ExampleLevels | wgpu/src/util/mod.rs:135-148 | For an 8×8 texture with 4×4 blocks of 16 bytes: mip 0 is 64 bytes at 32 per row; mip 1 (4×4, one block) is 16 bytes at 16 per row; mip 2 is 2×2 texels, padded up to one 4×4 block, so also 16 bytes at 16 per row |
| TextureUpload.ExampleChain | wgpu/src/util/mod.rs:135-148 | The example's three mips all succeed, with the layouts above |
| TextureUpload.ExampleSums | wgpu/src/util/mod.rs:150-171 | In the example, mips start at offsets 0, 64 and 80 of a layer, a layer is 96 bytes, and layer 1 starts at 96 |
| TextureUpload.ExampleLayerLog | wgpu/src/util/mod.rs:150-171 | The example's planned writes for layer `l` are mips 0, 1, 2 at `96l + [0, 64)`, `[64, 80)` and `[80, 96)` |
| TextureUpload.ExamplePlan | wgpu/src/util/mod.rs:133-171 | The example's full plan is six writes, layer 0 then layer 1, at offsets 0, 64, 80, 96, 160 and 176 |
| TextureUpload.ExampleOutcome | wgpu/src/util/mod.rs:133-171 | An upload of the example follows its plan, and finishes exactly when the data holds 192 bytes |
| TextureUpload.ExampleUploadCompletes | wgpu/src/util/mod.rs:107-176 | Two layers of three mips with 192 bytes of data give the six planned writes and no error |
| TextureUpload.ExampleStopPoint | wgpu/src/util/mod.rs:150-162 | With 180 bytes, only the sixth planned slice `[176, 192)` runs past the data, so the walk stops after five writes |
| TextureUpload.ExampleUploadRunsOut | wgpu/src/util/mod.rs:150-162 | The same texture with 180 bytes issues the first five planned writes, then fails on the slice `[176, 192)` |

## Left out

- Device and queue calls are not modelled. These are `create_buffer`, `create_texture`, `get_mapped_range_mut`, `unmap` and `write_texture`: backend code outside this file.
  - The buffer request is returned as a descriptor, and the mapped range is a fresh array.
  - Each `write_texture` call becomes a `TextureWrite` record in a log. The record holds the slice bounds `start .. end` of the data, not a copy of the bytes.
  - The `Texture` handle that `create_texture_with_data` returns is not modelled.
- `MapContext` setup (lines 90-92) is not modelled. Nothing reads its value afterwards.
- The address-alignment test and the unsafe `align_to` / `copy_nonoverlapping` code are not modelled as such.
  - The alignment test becomes the `aligned` parameter of `MakeSpirv`.
  - Both branches are modelled by their effect on the words.
- Spirv.MakeSpirv: the source reads words in native byte order; the model fixes little-endian.
- `TextureFormat::describe`, `Extent3d::at_mip_level` and `Extent3d::physical_size` are not modelled. They live in wgpu-types, which is not part of this model.
  - They enter as the `FormatInfo` and `ExtentRules` parameters.
  - Block dimensions are at least 1. Halving and rounding rules are not derived.
  - `ExampleRules` is one concrete instance, used by the example lemmas only.
- The `belt` submodule (`StagingBelt`, line 3) is not modelled. Its source is not part of this model.
- Labels and `BufferUsage` flags are passed through unchanged as opaque values.
- TextureUpload.MipLayoutOf: a `u32` product that overflows is modelled as an error, the panic of a debug build. A release build wraps around instead; that is not modelled.
- `usize` and `u64` overflow are not modelled. On 64-bit targets slice lengths are at most `isize::MAX`, so the offsets and padded sizes cannot overflow there.
- TextureUpload.CreateTextureWithData: on 32-bit targets `binary_offset + data_size` (line 150) can overflow `usize`; this is not modelled.
  - A debug build panics on that addition. A release build wraps, and the slice at line 162 then panics because its end lies below its start.
  - The model adds without bounds and reports `OutOfBounds` for that mip, so it ends at the same mip, but with a different panic.
- The texture is created before the mip-count check: `create_texture` runs at line 113, before the `u8` check at lines 129-130. So a mip count above 255 panics after the texture has already been created.
  - The model has no texture-creation step. `MipCountOverflow` only says that no write is issued.
- 3D textures are kept as written. Each mip's slice length ignores the depth, yet the copy size passed with it is the full physical extent, depth included. The model records both as written.
