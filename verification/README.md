# A model of the sparse voxel octree tracer's core

This project is a Dafny model of the CPU-side core of a Vulkan voxel path
tracer. The model covers:

- **The octree compactor (`SvoScene`).** It builds a chain of octree levels
  from a 4x4x4 base level up to a 1x1x1 root. It then flattens the nodes
  breadth first into one word buffer. Each nonzero node word gets, in its
  upper 16 bits, the running offset of its first child. That offset grows
  by the parallel bit count of the word's child mask, bits 8..15.
- **The MagicaVoxel loader (`VoxLoader`).** It packs the palette into
  RGBA words. It creates the level with the model's size as given,
  (size_x, size_y, size_z). It then scans the single model's color indices
  with z outermost and x innermost. For each solid voxel it stores a leaf
  word (`0xC0000000 | color`) at the coordinate with y and z swapped, so the
  level's size and its stores disagree whenever size_y differs from size_z.
- **The compute pipeline (`ComputePipeline`).** It covers group counts
  rounded up from thread counts, a bind followed by a dispatch, and caching
  of the compiled shader module. A failed compile exits unless failure is
  allowed. A build with a missing module logs an error.
- **The tracer's recording (`SvoTracer`).** This is the command list each
  frame records:
  - a UBO barrier and a clear;
  - the coarse beam, tracing and temporal filter passes;
  - five a-trous iterations, each a staging copy, a copy barrier, a
    dispatch and a barrier;
  - post-processing;
  - five history copies.

  The model also covers the per-swapchain-image delivery command buffers,
  the forwarding pairs, the beam image size, the scene-info and staging
  buffer contents, and the sample counter and previous-frame matrix that
  `updateUboData` keeps across frames.
- **The shader hot-reload bookkeeping (`ShaderChangeListener`).** It covers
  the watched names, the name-to-pipeline map, and the pipelines that wait
  for a rebuild, grouped by scheduler. It also covers the render-loop-blocked
  handler, which rebuilds and updates everything pending and then clears it.

Modules:

- `Arith`: two facts about products of natural numbers.
- `Bits`: the parallel bit count, proved equal to the number of set bits.
- `Levels`: the level chain.
- `SvoBuffer`, `SvoLayout` and `SvoOffsets`: the compactor, the node order,
  and the offset theorem.
- `VoxLoader`.
- `Commands`: an abstract vocabulary of recorded commands. It includes a
  hazard scan and its exact characterization, `Commands.GuardExact`.
- `ComputePipeline`.
- `SvoTracer`.
- `TracerUbo`.
- `ShaderListener`.

The modules model these source files:

- `src/svo-ray-tracing/SvoScene.cpp`
- `src/svo-ray-tracing/magica-vox/VoxLoader.cpp`
- `src/pipeline/ComputePipeline.cpp`
- `src/svo-tracer/SvoTracer.cpp`
- `src/file-watcher/ShaderChangeListener.cpp`

## Model

| member | source | states |
|---|---|---|
| Bits.BitCount | src/svo-ray-tracing/SvoScene.cpp:13-23 | a 32-bit word has at most 32 set bits, and the count is 0 exactly for the zero word |
| Bits.BitCountCorrect | src/svo-ray-tracing/SvoScene.cpp:13-23 | for every 32-bit word, the five-step parallel count equals the bit-by-bit count of its set bits |
| Bits.ByteStage1 | src/svo-ray-tracing/SvoScene.cpp:17-19 | after the first three steps, a byte of the word holds the number of set bits of the same byte of the input (stated alike for all four bytes by ByteStage0 to ByteStage3) |
| Bits.AddBytes | src/svo-ray-tracing/SvoScene.cpp:20-21 | the last two steps add up four byte counts of at most 8 each |
| Bits.BitCountExamples | src/svo-ray-tracing/SvoScene.cpp:13-23 | the full child-mask byte counts 8, a single mask bit counts 1, the all-ones word counts 32 and zero counts 0 |
| Bits.Pop8IsCount8 | src/svo-ray-tracing/SvoScene.cpp:13-23 | the bit-sliced sum of a byte's eight bits equals the number of set bits, at most 8 |
| Bits.MaskedBitCount | src/svo-ray-tracing/SvoScene.cpp:13-23 | the five-step parallel count of a word masked to bits 8..15 equals the population count of its child-mask byte |
| Bits.BitCountOfMask | src/svo-ray-tracing/SvoScene.cpp:111 | the amount added to the offset for a node is exactly the number of children its mask announces, never more than 8 |
| Levels.SizeChain | src/svo-ray-tracing/SvoScene.cpp:53-77 | starting from a power-of-two cube, halving reaches the 1x1x1 root after log2(size) steps and not before |
| Levels.BaseChain | src/svo-ray-tracing/SvoScene.cpp:54-61 | the 4x4x4 base passes the power-of-two requirement and yields the sizes 4, 2, 1 |
| Levels.PowerOfTwoTestExamples | src/svo-ray-tracing/SvoScene.cpp:59-61 | the `n & (n - 1) == 0` test accepts every power of two and also 0, and rejects 6 |
| Levels.PowerOfTwoTestExact | src/svo-ray-tracing/SvoScene.cpp:59-61 | conversely, the test passes only for 0 and for words with a single set bit, and such a word is 2^k for the position k of its bit |
| Levels.PassingSizeIsPowerOfTwo | src/svo-ray-tracing/SvoScene.cpp:59-61 | a nonzero axis that passes the test is 2 raised to its base-2 logarithm |
| Levels.TestedBaseIsCube | src/svo-ray-tracing/SvoScene.cpp:54-61 | a nonzero size that passes the test, used on all three axes, is a power-of-two cube, the shape the level chain needs |
| Levels.BuildLevels | src/svo-ray-tracing/SvoScene.cpp:64-76 | the level list starts at the base, each level is half the previous one and is filled from it, and the last level is the root |
| Levels.BuildLevelsFollowsChain | src/svo-ray-tracing/SvoScene.cpp:70-76 | the sizes of the built levels are exactly the halving chain of the base size |
| Levels.UnequalAxesNeverReachRoot | src/svo-ray-tracing/SvoScene.cpp:70 | a base whose axes are each a power of two or 0, and which differ or include a 0, never halves to 1x1x1, so the size loop would not stop; this is why the axes must be equal |
| SvoBuffer.CreateBuffer | src/svo-ray-tracing/SvoScene.cpp:91-146 | the buffer holds the words of the nonzero nodes, root first, then depth by depth, each parent's children in octant order with x outermost and z innermost, each with its offset embedded |
| SvoBuffer.EmptyRootEmitsNothing | src/svo-ray-tracing/SvoScene.cpp:102-105 | an empty root word yields an empty buffer, whatever the deeper levels hold |
| SvoBuffer.EmbedLossless | src/svo-ray-tracing/SvoScene.cpp:109 | when the offset is below 2^14 and the node word leaves bits 16..29 clear, both the node word and the offset can be read back from the embedded word |
| SvoBuffer.EmbedCollisions | src/svo-ray-tracing/SvoScene.cpp:109 | outside those bounds the embedding loses data: offset 2^14 collides with the leaf bit, and offset 2^16 embeds like offset 0 |
| SvoLayout.ChildrenMember | src/svo-ray-tracing/SvoScene.cpp:121-125 | a coordinate is among the eight children of p exactly when halving it gives p |
| SvoLayout.CandidatesMember | src/svo-ray-tracing/SvoScene.cpp:120-125 | the candidates visited for a depth are exactly the coordinates whose half is an active parent |
| SvoLayout.CandidatesDistinct | src/svo-ray-tracing/SvoScene.cpp:120-125 | no coordinate is visited twice at one depth when the parents are distinct |
| SvoLayout.OccupiedMembers | src/svo-ray-tracing/SvoScene.cpp:126-130 | the nodes kept at a depth are exactly the visited coordinates whose word is nonzero |
| SvoLayout.RootActive | src/svo-ray-tracing/SvoScene.cpp:101-106 | the root is active exactly when its word is nonzero |
| SvoLayout.ActivePruned | src/svo-ray-tracing/SvoScene.cpp:117-144 | a node is active at depth d + 1 exactly when its word is nonzero and its parent is active at depth d |
| SvoLayout.ActiveDistinct | src/svo-ray-tracing/SvoScene.cpp:117-144 | no node is emitted twice at one depth |
| SvoLayout.EmittedNonzero | src/svo-ray-tracing/SvoScene.cpp:127-130 | every code the compactor emits is nonzero |
| SvoOffsets.WordsIndex | src/svo-ray-tracing/SvoScene.cpp:109-111 | buffer word i is code i with the offset after codes 0..i-1 embedded |
| SvoOffsets.AccumCounts | src/svo-ray-tracing/SvoScene.cpp:94-135 | after any prefix of codes the running offset is 1 plus the sum of their child counts, modulo 2^32 |
| SvoOffsets.OffsetsNonDecreasing | src/svo-ray-tracing/SvoScene.cpp:111-135 | the offsets never decrease along the buffer until the count passes 2^32 |
| SvoOffsets.ChildBlock | src/svo-ray-tracing/SvoScene.cpp:91-146 | when every mask announces its node's nonzero children, node i's accumulated offset is the position in the node order where its children begin, and exactly those children, as many as its mask counts, lie there in octant order |
| SvoOffsets.BufferOffsets | src/svo-ray-tracing/SvoScene.cpp:91-146 | the same theorem on the buffer: word i embeds, modulo 2^32, the position of node i's first child |
| VoxLoader.PackColor | src/svo-ray-tracing/magica-vox/VoxLoader.cpp:69-75 | red lands in the top byte, then green, blue, and alpha in the low byte |
| VoxLoader.UnpackPack | src/svo-ray-tracing/magica-vox/VoxLoader.cpp:69-76 | a packed palette color unpacks to the same red, green, blue and alpha |
| VoxLoader.PackUnpack | src/svo-ray-tracing/magica-vox/VoxLoader.cpp:69-76 | every 32-bit word is the packing of exactly one color |
| VoxLoader.PackPalette | src/svo-ray-tracing/magica-vox/VoxLoader.cpp:68-76 | one word per palette entry, each unpacking to that entry |
| VoxLoader.IndexInjective | src/svo-ray-tracing/magica-vox/VoxLoader.cpp:79-84 | two voxels of the model never read the same color index |
| VoxLoader.IndexBelowVolume | src/svo-ray-tracing/magica-vox/VoxLoader.cpp:79-84 | every index the scan reads lies within the voxel data |
| VoxLoader.VoxelOf | src/svo-ray-tracing/magica-vox/VoxLoader.cpp:79-84 | every index of the voxel data is read for exactly one voxel of the model |
| VoxLoader.ScanCoversIndices | src/svo-ray-tracing/magica-vox/VoxLoader.cpp:80-84 | the z-y-x scan reads indices inside the data, and never the same index for two voxels |
| VoxLoader.LeafWord | src/svo-ray-tracing/magica-vox/VoxLoader.cpp:87-90 | the two top bits are set, bits 8..29 are clear, and the low byte is the color index |
| VoxLoader.LeafWordBits | src/svo-ray-tracing/magica-vox/VoxLoader.cpp:87-90 | a leaf word keeps the color index in its low byte, sets the two top bits, announces no children and is nonzero |
| VoxLoader.StoresInsideLevel | src/svo-ray-tracing/magica-vox/VoxLoader.cpp:89 | with y and z swapped, a coordinate lies in the level box exactly when it is the store position of a model voxel |
| VoxLoader.AsWrittenSizeMissesStores | src/svo-ray-tracing/magica-vox/VoxLoader.cpp:54-57 | with the size taken unswapped, every store lands inside the image only when size_y equals size_z; a 1x1x2 model stores outside |
| VoxLoader.ScanModel | src/svo-ray-tracing/magica-vox/VoxLoader.cpp:78-94 | the scan stores a leaf word at the swapped coordinate of every solid voxel and nothing anywhere else, and every store lies in the box with y and z swapped |
| VoxLoader.ParseModel | src/svo-ray-tracing/magica-vox/VoxLoader.cpp:61-97 | as written: the palette is packed entry by entry, the level is created with the unswapped size (size_x, size_y, size_z), and it holds exactly the scanned leaf words |
| VoxLoader.AsWrittenLevelLosesVoxel | src/svo-ray-tracing/magica-vox/VoxLoader.cpp:63-90 | for a 1x1x2 model with a solid second voxel, the loader stores that voxel at (0, 1, 0), outside the 1x1x2 level it created |
| VoxLoader.ParseModelFitted | src/svo-ray-tracing/magica-vox/VoxLoader.cpp:61-97 | corrected: the level is created with y and z swapped, and then every stored coordinate lies inside it |
| VoxLoader.FetchData | src/svo-ray-tracing/magica-vox/VoxLoader.cpp:101-114 | loading fails exactly when the scene does not hold one model, and otherwise yields the as-written parse of that model: the palette packed entry by entry, the unswapped size, and exactly the scanned leaf words |
| ComputePipeline.CeilDiv | src/pipeline/ComputePipeline.cpp:79-81 | the group count is the fewest groups whose threads cover the thread count |
| ComputePipeline.CeilDivUnique | src/pipeline/ComputePipeline.cpp:79-81 | that covering count is unique |
| ComputePipeline.CeilDivExamples | src/pipeline/ComputePipeline.cpp:79-81 | 0 threads need 0 groups, k full groups need k, and one thread more needs k + 1 |
| ComputePipeline.RecordCommand | src/pipeline/ComputePipeline.cpp:75-82 | a bind of the pipeline followed by one dispatch of it, with covering group counts on each axis |
| ComputePipeline.RecordIndirectCommand | src/pipeline/ComputePipeline.cpp:84-88 | a bind of the pipeline followed by one indirect dispatch of it |
| ComputePipeline.BuildAndCacheShaderModule | src/pipeline/ComputePipeline.cpp:57-73 | the process exits exactly when the compile fails and failure is not allowed; it returns true exactly when the compile succeeded; on success the old module is released and a new one cached; on failure nothing changes |
| ComputePipeline.Build | src/pipeline/ComputePipeline.cpp:36-44 | the shader stage always uses the cached module, even a null one |
| ComputePipeline.CacheThenBuild | src/pipeline/ComputePipeline.cpp:25-73 | after a successful cache the build logs no error and uses the new module; after a failed one the build is as before; a null module is exactly what makes the build log an error |
| SvoTracer.CreatePipelines | src/svo-tracer/SvoTracer.cpp:691-714 | every tracer pipeline has a positive workgroup size on each axis |
| SvoTracer.BeamExtent | src/svo-tracer/SvoTracer.cpp:108-111 | the beam image has one more cell than the 8-pixel tiles needed to cover the screen axis |
| SvoTracer.BeamExtentExamples | src/svo-tracer/SvoTracer.cpp:108 | 16 pixels give 3 cells and 17 give 4 |
| SvoTracer.FrameStart | src/svo-tracer/SvoTracer.cpp:363-400 | a frame opens with the UBO barrier and the clear, then binds the coarse beam and dispatches it over the whole beam image |
| SvoTracer.FrameShape | src/svo-tracer/SvoTracer.cpp:363-497 | a frame has 43 commands: the prologue at 0..2, the coarse beam, tracing and temporal filter passes (bind, dispatch, barrier) at 2..5, 5..8 and 8..11, the five a-trous iterations at 11..36, post-processing at 36..38 and the five history copies at 38..43 |
| SvoTracer.LoopShape | src/svo-tracer/SvoTracer.cpp:418-449 | n iterations give 5n commands, with iteration i at positions 5i..5i+4 |
| SvoTracer.IterationCommands | src/svo-tracer/SvoTracer.cpp:418-449 | an iteration is a staging copy of buffer i, the copy barrier, a bind and dispatch of the a-trous pipeline, and the closing barrier |
| SvoTracer.FrameLayout | src/svo-tracer/SvoTracer.cpp:418-497 | the five iterations start at position 11, and the history copies run in the order normal, position, voxel hash, accumulated, variance |
| SvoTracer.AsWrittenTracingCommands | src/svo-tracer/SvoTracer.cpp:333-497 | as recorded: the dispatches run coarse beam, tracing, temporal filter, five a-trous passes, then post-processing, each after its own bind, with a compute-to-compute barrier between any two; but some staging copy is not ordered after the a-trous pass before it |
| SvoTracer.TracingCommands | src/svo-tracer/SvoTracer.cpp:333-497 | corrected: the same dispatches in the same order and separation, and every staging copy waits for the a-trous passes before it |
| SvoTracer.InitBufferData | src/svo-tracer/SvoTracer.cpp:323-331 | the scene info holds the beam resolution 8 and the level count, and staging buffer i holds i, for i below 5 |
| SvoTracer.PassReadsItsIteration | src/svo-tracer/SvoTracer.cpp:418-449 | the latest staging copy before a-trous dispatch i is copy i, behind a copy barrier |
| SvoTracer.AsWrittenCopyRaceWitness | src/svo-tracer/SvoTracer.cpp:425-448 | the first racing triple of a recorded frame: the a-trous dispatch at position 14, the barrier at 15 whose destination stages leave out transfers, and the copy of staging buffer 1 at 16 |
| SvoTracer.TracingCommandBuffers | src/svo-tracer/SvoTracer.cpp:333-503 | one command list per frame in flight, each the as-recorded list for its own frame index |
| SvoTracer.TracingBuffersRace | src/svo-tracer/SvoTracer.cpp:333-503 | every recorded tracing command list carries the staging copy race |
| SvoTracer.TargetPairs | src/svo-tracer/SvoTracer.cpp:274-280 | one pair per swapchain image, from the render target into image j |
| SvoTracer.ForwardingPairs | src/svo-tracer/SvoTracer.cpp:238-281 | the five history pairs followed by the target pairs |
| SvoTracer.ForwardingDestinationsDistinct | src/svo-tracer/SvoTracer.cpp:238-281 | no two forwarding pairs write the same image |
| SvoTracer.DeliveryCommandBuffers | src/svo-tracer/SvoTracer.cpp:508-550 | one buffer per swapchain image, each holding only the copy of the render target into that image, with no dispatch |
| TracerUbo.UpdateUboData | src/svo-tracer/SvoTracer.cpp:552-643 | the render info carries this matrix, the previous one and the counter; afterwards the matrix is remembered and the counter advances, wrapping from 2^32-1 to 0 |
| TracerUbo.Run | src/svo-tracer/SvoTracer.cpp:552-643 | a run of calls yields one render info per frame, and the counter stays below 2^32 |
| TracerUbo.RunHistory | src/svo-tracer/SvoTracer.cpp:552-643 | over a run of frames, call k sees counter k mod 2^32 and the matrix of call k-1, or the identity on the first call |
| ShaderListener.AddPending | src/file-watcher/ShaderChangeListener.cpp:43 | the pipeline joins the set of its own scheduler, which is created if missing, and every other scheduler's set is unchanged |
| ShaderListener.AddPendingSet | src/file-watcher/ShaderChangeListener.cpp:43 | across all schedulers, exactly this pipeline is added to the pending ones |
| ShaderListener.HandleFileAction | src/file-watcher/ShaderChangeListener.cpp:23-48 | only a modification of a watched file counts: its pipeline is filed under its scheduler and a block is requested; anything else changes nothing; in a consistent state (every watched name mapped) it never faults |
| ShaderListener.ModifiedFilesPipeline | src/file-watcher/ShaderChangeListener.cpp:40-47 | a modified watched file adds exactly its pipeline to the pending ones |
| ShaderListener.HandleFileActionIdempotent | src/file-watcher/ShaderChangeListener.cpp:35-43 | a second identical event asks for a block again but leaves the pending set as the first left it |
| ShaderListener.AddWatchingItem | src/file-watcher/ShaderChangeListener.cpp:78-89 | the process exits exactly when the name is already mapped; otherwise the name is watched and mapped to the pipeline, and the other entries are unchanged |
| ShaderListener.RemoveWatchingItem | src/file-watcher/ShaderChangeListener.cpp:91-96 | the name leaves both the watched set and the map, and nothing else changes |
| ShaderListener.AddThenRemove | src/file-watcher/ShaderChangeListener.cpp:78-96 | adding a new pipeline and then removing it restores the state |
| ShaderListener.OnRenderLoopBlocked | src/file-watcher/ShaderChangeListener.cpp:50-76 | every pending pipeline is rebuilt once, every scheduler with pending pipelines is updated once, and nothing is pending afterwards |

## Left out

- SvoScene's `_buildImageDatas`: the base and upper level builders are not part of this model. The coarsening step is a parameter of `Levels.BuildLevels`, and the level contents are arbitrary maps.
- Bits.BitCount: its own contract states only the bound 32 and that the count is 0 exactly for 0; that the count equals the number of set bits of every word is stated separately by Bits.BitCountCorrect, as a function cannot cite a lemma about itself.
- ComputePipeline.CeilDiv: the source divides as single-precision floats and rounds up; the model uses exact integer ceiling division, so float rounding at very large thread counts is not modelled.
- SvoTracer.BeamExtent: the source computes `ceil(w / 8) + 1` in single precision; the model uses exact integer ceiling division, which agrees for screen sizes below 2^24.
- ComputePipeline.RecordIndirectCommand: the contents of the indirect buffer are not modelled; the dispatch carries only a buffer handle.
- ComputePipeline.Build: Vulkan object creation, the pipeline layout and the descriptor sets are not modelled; only the module choice and the error report are.
- The shader compiler, the shader file reader, `Pipeline::build(bool)`, `Scheduler::update` and the efsw watcher thread are not part of this model; they appear as inputs or as the returned sequences of rebuilds and updates.
- ShaderListener.OnRenderLoopBlocked: `std::map` and `std::set` iteration order is not modelled. The rebuilds and updates are returned in an unspecified order, and each one is listed exactly once. The logging pass is left out.
- ShaderListener.HandleFileAction: a watched name with no map entry dereferences a null pipeline in the source. The model returns `Fault` there and proves that no state satisfying `Valid` reaches it.
- ShaderListener.AddWatchingItem: on a duplicate name the process exits, so the insertion into the watched set that the source makes before its check is not visible in the `Exit` outcome.
- TracerUbo.UpdateUboData: the camera vectors, extent, field of view, time and the environment and tweakable UBOs are floating-point data copied through; only the sample counter and the previous matrix are modelled. The matrix type is a parameter.
- VoxLoader: the ogt_vox parser, file reading and scene destruction are left out; a scene is given as a palette and a list of models.
- VoxLoader.ParseModel: the source's `uint32_t voxelIndex` is modelled as an unbounded index, so models with more than 2^32 voxels are not covered.
- VoxLoader.FetchData: the source asserts that the scene holds one model; the model returns `Failure` instead of aborting.
- SvoTracer: image creation and layout transitions, descriptor sets, the GUI and the commented-out passes are left out. `forwardCopy` is a single abstract command per pair.
- SvoTracer.AsWrittenTracingCommands: barriers are modelled by their stage and access masks only; dependency flags and the buffer and image barrier lists are left out.

## Findings

| source | as written | input that shows it | evidently intended | confidence | as-written member | corrected member |
|---|---|---|---|---|---|---|
| src/svo-ray-tracing/magica-vox/VoxLoader.cpp:63 | the image is created with the model's size (x, y, z), but voxels are stored at (x, z, y) | a 1x1x2 model whose second voxel is solid stores at (0, 1, 0), outside a 1x1x2 image | the image size swaps y and z as the stores do | not executed | VoxLoader.ParseModel, VoxLoader.AsWrittenLevelLosesVoxel | VoxLoader.ParseModelFitted |
| src/svo-tracer/SvoTracer.cpp:446-448 | the barrier after each a-trous dispatch names only the compute stage as its destination, so the next iteration's staging copy (a transfer) may overwrite the iteration buffer while the dispatch still reads it | any frame: the dispatch at position 14, the barrier at 15 and the copy of staging buffer 1 at 16 | the barrier also holds back the transfer stage | not executed | SvoTracer.AsWrittenTracingCommands, SvoTracer.AsWrittenCopyRaceWitness | SvoTracer.TracingCommands |
