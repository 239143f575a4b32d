/** The tracer's per-frame GPU work, as the command lists it records: the
    tracing buffers (one per frame in flight) with their barriers, the
    a-trous filter loop and the history copies, and the delivery buffers
    (one per swapchain image). */
module SvoTracer {
  import opened Commands
  import opened ComputePipeline

  /** Number of a-trous filter iterations per frame. */
  const ATrousSize: nat := 5

  /** Side of the screen tile one coarse beam covers, in pixels. */
  const BeamResolution: nat := 8

  // ---------------------------------------------------------------------
  // Pipelines

  const CoarseBeamShader: string := "svoCoarseBeam.comp"
  const TracingShader: string := "svoTracing.comp"
  const TemporalFilterShader: string := "temporalFilter.comp"
  const ATrousShader: string := "aTrous.comp"
  const PostProcessingShader: string := "postProcessing.comp"

  /** All tracer pipelines use 8x8x1 workgroups. */
  const TileSize: WorkGroupSize := WorkGroupSize(8, 8, 1)

  datatype TracerPipelines = TracerPipelines(
    coarseBeam: Pipeline, tracing: Pipeline, temporalFilter: Pipeline, aTrous: Pipeline, postProcessing: Pipeline)

  /** The pipelines as the tracer creates them, before any module is cached. */
  function CreatePipelines(): (ps: TracerPipelines)
    ensures PositiveSize(ps.coarseBeam.workGroupSize) && PositiveSize(ps.tracing.workGroupSize)
    ensures PositiveSize(ps.temporalFilter.workGroupSize) && PositiveSize(ps.aTrous.workGroupSize)
    ensures PositiveSize(ps.postProcessing.workGroupSize)
  {
    TracerPipelines(
      Pipeline(CoarseBeamShader, TileSize, NullModule),
      Pipeline(TracingShader, TileSize, NullModule),
      Pipeline(TemporalFilterShader, TileSize, NullModule),
      Pipeline(ATrousShader, TileSize, NullModule),
      Pipeline(PostProcessingShader, TileSize, NullModule))
  }

  // ---------------------------------------------------------------------
  // Beam sizing

  /** The beam depth image extent along one axis: one beam per started tile
      plus one. */
  function BeamExtent(n: nat): (e: nat)
    ensures (e - 2) * BeamResolution < n <= (e - 1) * BeamResolution
  {
    CeilDiv(n, BeamResolution) + 1
  }

  /** A width of 16 pixels needs 3 beams, 17 pixels need 4. */
  lemma BeamExtentExamples()
    ensures BeamExtent(16) == 3 && BeamExtent(17) == 4 && BeamExtent(0) == 1
  {
    CeilDivExamples(BeamResolution, 2);
    CeilDivExamples(BeamResolution, 0);
  }

  /** The beam depth image: extent per axis and depth 1. */
  datatype Extent = Extent(width: nat, height: nat, depth: nat)

  function BeamImageExtent(w: nat, h: nat): Extent {
    Extent(BeamExtent(w), BeamExtent(h), 1)
  }

  // ---------------------------------------------------------------------
  // Barriers

  /** Host writes to the uniform buffers become visible to compute shaders. */
  const UboBarrier: Command := Barrier({HostStage}, {ComputeStage}, {HostWrite}, {ShaderRead})

  /** The general barrier between compute passes. */
  const ComputeBarrier: Command :=
    Barrier({ComputeStage}, {ComputeStage}, {ShaderWrite}, {ShaderRead, ShaderWrite})

  /** The staging copy's write becomes visible to the a-trous shader. */
  const CopyBarrier: Command := Barrier({TransferStage}, {ComputeStage}, {TransferWrite}, {ShaderRead})

  /** The barrier after an a-trous pass that also holds back the next
      iteration's staging copy. */
  const ATrousDoneBarrier: Command :=
    Barrier({ComputeStage}, {ComputeStage, TransferStage}, {ShaderWrite}, {ShaderRead, ShaderWrite})

  // ---------------------------------------------------------------------
  // The tracing command list

  /** The history pairs, copied after every frame: each current image into
      its previous-frame counterpart. */
  const HistoryPairs: seq<Pair> := [
    Pair(NormalImage, LastNormalImage),
    Pair(PositionImage, LastPositionImage),
    Pair(VoxHashImage, LastVoxHashImage),
    Pair(AccumedImage, LastAccumedImage),
    Pair(VarianceHistImage, LastVarianceHistImage)
  ]

  function Prologue(): seq<Command> {
    [UboBarrier, ClearTarget]
  }

  /** A compute pass over the whole screen followed by the general barrier. */
  function Pass(p: Pipeline, frame: nat, w: nat, h: nat): seq<Command>
    requires PositiveSize(p.workGroupSize)
  {
    RecordCommand(p, frame, w, h, 1) + [ComputeBarrier]
  }

  /** A-trous iteration i: copy staging buffer i into the iteration buffer,
      make the copy visible, dispatch, then the barrier `after`. */
  function ATrousIteration(ps: TracerPipelines, frame: nat, w: nat, h: nat, i: nat, after: Command): seq<Command>
    requires ps == CreatePipelines()
  {
    [CopyStaging(i), CopyBarrier] + RecordCommand(ps.aTrous, frame, w, h, 1) + [after]
  }

  /** The first n a-trous iterations. */
  function ATrousLoop(ps: TracerPipelines, frame: nat, w: nat, h: nat, n: nat, after: Command): seq<Command>
    requires ps == CreatePipelines()
  {
    if n == 0 then [] else ATrousLoop(ps, frame, w, h, n - 1, after) + ATrousIteration(ps, frame, w, h, n - 1, after)
  }

  /** The forward copies of the history pairs, in order. */
  function HistoryCopies(): seq<Command> {
    seq(|HistoryPairs|, i requires 0 <= i < |HistoryPairs| => ForwardCopy(HistoryPairs[i]))
  }

  /** The tracing command list of one frame in flight, with the given barrier
      after each a-trous pass. */
  function FrameCommands(frame: nat, w: nat, h: nat, after: Command): seq<Command> {
    var ps := CreatePipelines();
    Prologue()
    + Pass(ps.coarseBeam, frame, BeamExtent(w), BeamExtent(h))
    + Pass(ps.tracing, frame, w, h)
    + Pass(ps.temporalFilter, frame, w, h)
    + ATrousLoop(ps, frame, w, h, ATrousSize, after)
    + RecordCommand(ps.postProcessing, frame, w, h, 1)
    + HistoryCopies()
  }

  /** The tracing commands as recorded: the general compute barrier follows
      each a-trous pass. The passes run in the documented order, each after
      binding its own pipeline and separated from the one before by a
      compute-to-compute barrier; but some staging copy into the iteration
      buffer is not ordered after an earlier a-trous pass that reads it. */
  function AsWrittenTracingCommands(frame: nat, w: nat, h: nat): (r: seq<Command>)
    ensures Dispatched(r) == DispatchOrder && SelfBound(r)
    ensures Safe(DispatchAfterDispatch, r)
    ensures !Safe(CopyRule, r)
  {
    var cmds := FrameCommands(frame, w, h, ComputeBarrier);
    FrameDispatches(frame, w, h, ComputeBarrier);
    FrameSelfBound(frame, w, h, ComputeBarrier);
    FrameGuards(frame, w, h, ComputeBarrier);
    GuardSound(DispatchAfterDispatch, cmds);
    GuardSound(CopyRule, cmds);
    cmds
  }

  /** The tracing commands with the a-trous pass barrier extended to the
      transfer stage: the same passes in the same order, and now every
      staging copy waits for the a-trous passes before it. */
  function TracingCommands(frame: nat, w: nat, h: nat): (r: seq<Command>)
    ensures Dispatched(r) == DispatchOrder && SelfBound(r)
    ensures Safe(DispatchAfterDispatch, r)
    ensures Safe(CopyRule, r)
  {
    var cmds := FrameCommands(frame, w, h, ATrousDoneBarrier);
    FrameDispatches(frame, w, h, ATrousDoneBarrier);
    FrameSelfBound(frame, w, h, ATrousDoneBarrier);
    FrameGuards(frame, w, h, ATrousDoneBarrier);
    GuardSound(DispatchAfterDispatch, cmds);
    GuardSound(CopyRule, cmds);
    cmds
  }

  /** One tracing command list per frame in flight, as recorded. */
  function TracingCommandBuffers(framesInFlight: nat, w: nat, h: nat): (r: seq<seq<Command>>)
    ensures |r| == framesInFlight
    ensures forall f :: 0 <= f < framesInFlight ==> r[f] == AsWrittenTracingCommands(f, w, h)
  {
    seq(framesInFlight, f requires 0 <= f => AsWrittenTracingCommands(f, w, h))
  }

  // ---------------------------------------------------------------------
  // Dispatch order and binding

  /** The dispatch order of a frame: coarse beam, tracing, temporal filter,
      five a-trous passes, post-processing. */
  const DispatchOrder: seq<string> := [
    CoarseBeamShader, TracingShader, TemporalFilterShader,
    ATrousShader, ATrousShader, ATrousShader, ATrousShader, ATrousShader,
    PostProcessingShader
  ]

  /** Lists without dispatches: the prologue, the barriers, the copies. */
  lemma NoDispatches(cmds: seq<Command>)
    requires forall i :: 0 <= i < |cmds| ==> !IsDispatch(cmds[i])
    ensures Dispatched(cmds) == [] && SelfBound(cmds)
  {
    DispatchedMembers(cmds, "");
    if Dispatched(cmds) != [] {
      DispatchedMembers(cmds, Dispatched(cmds)[0]);
    }
  }

  lemma PassFacts(p: Pipeline, frame: nat, w: nat, h: nat)
    requires PositiveSize(p.workGroupSize)
    ensures Dispatched(Pass(p, frame, w, h)) == [p.shaderFileName] && SelfBound(Pass(p, frame, w, h))
  {
    NoDispatches([ComputeBarrier]);
    DispatchedConcat(RecordCommand(p, frame, w, h, 1), [ComputeBarrier]);
    SelfBoundConcat(RecordCommand(p, frame, w, h, 1), [ComputeBarrier]);
  }

  lemma IterationFacts(ps: TracerPipelines, frame: nat, w: nat, h: nat, i: nat, after: Command)
    requires ps == CreatePipelines() && after.Barrier?
    ensures Dispatched(ATrousIteration(ps, frame, w, h, i, after)) == [ATrousShader]
    ensures SelfBound(ATrousIteration(ps, frame, w, h, i, after))
  {
    var copy, dispatch := [CopyStaging(i), CopyBarrier], RecordCommand(ps.aTrous, frame, w, h, 1);
    NoDispatches(copy);
    NoDispatches([after]);
    DispatchedConcat(copy, dispatch);
    DispatchedConcat(copy + dispatch, [after]);
    SelfBoundConcat(copy, dispatch);
    SelfBoundConcat(copy + dispatch, [after]);
  }

  lemma LoopStep(ps: TracerPipelines, frame: nat, w: nat, h: nat, n: nat, after: Command)
    requires ps == CreatePipelines()
    ensures ATrousLoop(ps, frame, w, h, 0, after) == []
    ensures n > 0 ==>
      ATrousLoop(ps, frame, w, h, n, after) == ATrousLoop(ps, frame, w, h, n - 1, after) + ATrousIteration(ps, frame, w, h, n - 1, after)
  {
  }

  lemma {:induction false} LoopFacts(ps: TracerPipelines, frame: nat, w: nat, h: nat, n: nat, after: Command)
    requires ps == CreatePipelines() && after.Barrier?
    ensures Dispatched(ATrousLoop(ps, frame, w, h, n, after)) == seq(n, _ => ATrousShader)
    ensures SelfBound(ATrousLoop(ps, frame, w, h, n, after))
  {
    hide *;
    LoopStep(ps, frame, w, h, n, after);
    if n == 0 {
      NoDispatches([]);
    } else {
      var init, it := ATrousLoop(ps, frame, w, h, n - 1, after), ATrousIteration(ps, frame, w, h, n - 1, after);
      LoopFacts(ps, frame, w, h, n - 1, after);
      IterationFacts(ps, frame, w, h, n - 1, after);
      DispatchedConcat(init, it);
      SelfBoundConcat(init, it);
      assert seq(n - 1, _ => ATrousShader) + [ATrousShader] == seq(n, _ => ATrousShader);
    }
  }

  lemma HistoryCopiesFacts()
    ensures |HistoryCopies()| == 5
    ensures forall i :: 0 <= i < 5 ==> HistoryCopies()[i] == ForwardCopy(HistoryPairs[i])
    ensures Dispatched(HistoryCopies()) == [] && SelfBound(HistoryCopies())
  {
    NoDispatches(HistoryCopies());
  }

  /** The pieces a frame's command list is made of. */
  lemma FramePieces(frame: nat, w: nat, h: nat, after: Command)
    ensures var ps := CreatePipelines();
      FrameCommands(frame, w, h, after) ==
        Prologue() + Pass(ps.coarseBeam, frame, BeamExtent(w), BeamExtent(h)) + Pass(ps.tracing, frame, w, h)
        + Pass(ps.temporalFilter, frame, w, h) + ATrousLoop(ps, frame, w, h, ATrousSize, after)
        + RecordCommand(ps.postProcessing, frame, w, h, 1) + HistoryCopies()
  {
  }

  /** Every frame dispatches coarse beam, tracing, temporal filter, the five
      a-trous passes and post-processing, in this order. */
  lemma FrameDispatches(frame: nat, w: nat, h: nat, after: Command)
    requires after.Barrier?
    ensures Dispatched(FrameCommands(frame, w, h, after)) == DispatchOrder
  {
    var ps := CreatePipelines();
    var a := Prologue();
    var b := Pass(ps.coarseBeam, frame, BeamExtent(w), BeamExtent(h));
    var c := Pass(ps.tracing, frame, w, h);
    var d := Pass(ps.temporalFilter, frame, w, h);
    var e := ATrousLoop(ps, frame, w, h, ATrousSize, after);
    var f := RecordCommand(ps.postProcessing, frame, w, h, 1);
    var g := HistoryCopies();
    hide *;
    FramePieces(frame, w, h, after);
    PipelineNames();
    PrologueIs();
    NoDispatches(a);
    PassFacts(ps.coarseBeam, frame, BeamExtent(w), BeamExtent(h));
    PassFacts(ps.tracing, frame, w, h);
    PassFacts(ps.temporalFilter, frame, w, h);
    LoopFacts(ps, frame, w, h, ATrousSize, after);
    HistoryCopiesFacts();
    DispatchedConcat(a, b);
    DispatchedConcat(a + b, c);
    DispatchedConcat(a + b + c, d);
    assert Dispatched(a + b + c + d) == [CoarseBeamShader, TracingShader, TemporalFilterShader];
    DispatchedConcat(a + b + c + d, e);
    DispatchedConcat(a + b + c + d + e, f);
    DispatchedConcat(a + b + c + d + e + f, g);
    assert Dispatched(a + b + c + d + e + f + g) == Dispatched(a + b + c + d) + Dispatched(e) + [PostProcessingShader];
  }

  /** Every dispatch of a frame runs the pipeline bound right before it. */
  lemma FrameSelfBound(frame: nat, w: nat, h: nat, after: Command)
    requires after.Barrier?
    ensures SelfBound(FrameCommands(frame, w, h, after))
  {
    var ps := CreatePipelines();
    var a := Prologue();
    var b := Pass(ps.coarseBeam, frame, BeamExtent(w), BeamExtent(h));
    var c := Pass(ps.tracing, frame, w, h);
    var d := Pass(ps.temporalFilter, frame, w, h);
    var e := ATrousLoop(ps, frame, w, h, ATrousSize, after);
    var f := RecordCommand(ps.postProcessing, frame, w, h, 1);
    var g := HistoryCopies();
    hide *;
    FramePieces(frame, w, h, after);
    PrologueIs();
    NoDispatches(a);
    PassFacts(ps.coarseBeam, frame, BeamExtent(w), BeamExtent(h));
    PassFacts(ps.tracing, frame, w, h);
    PassFacts(ps.temporalFilter, frame, w, h);
    LoopFacts(ps, frame, w, h, ATrousSize, after);
    HistoryCopiesFacts();
    SelfBoundConcat(a, b);
    SelfBoundConcat(a + b, c);
    SelfBoundConcat(a + b + c, d);
    SelfBoundConcat(a + b + c + d, e);
    SelfBoundConcat(a + b + c + d + e, f);
    SelfBoundConcat(a + b + c + d + e + f, g);
  }

  // ---------------------------------------------------------------------
  // Barriers between passes

  /** The rule that the staging copies must wait for the a-trous passes,
      which read the iteration buffer the copies overwrite. */
  const CopyRule: Rule := CopyAfterReads(ATrousShader)

  lemma GuardList(rule: Rule, o: bool, a: Command, b: Command, c: Command, d: Command, e: Command)
    ensures Guard(rule, o, [a]) == Step(rule, o, a)
    ensures Guard(rule, o, [a, b]) == Then(rule, Step(rule, o, a), b)
    ensures Guard(rule, o, [a, b, c]) == Then(rule, Then(rule, Step(rule, o, a), b), c)
    ensures Guard(rule, o, [a, b, c, d, e]) ==
      Then(rule, Then(rule, Then(rule, Then(rule, Step(rule, o, a), b), c), d), e)
  {
    GuardSnoc(rule, o, [], a);
    assert [] + [a] == [a];
    GuardSnoc(rule, o, [a], b);
    assert [a] + [b] == [a, b];
    GuardSnoc(rule, o, [a, b], c);
    assert [a, b] + [c] == [a, b, c];
    GuardSnoc(rule, o, [a, b, c], d);
    assert [a, b, c] + [d] == [a, b, c, d];
    GuardSnoc(rule, o, [a, b, c, d], e);
    assert [a, b, c, d] + [e] == [a, b, c, d, e];
  }

  lemma PassGuards(p: Pipeline, frame: nat, w: nat, h: nat)
    requires PositiveSize(p.workGroupSize)
    ensures Guard(DispatchAfterDispatch, false, Pass(p, frame, w, h)) == Some(false)
    ensures p.shaderFileName != ATrousShader ==> Guard(CopyRule, false, Pass(p, frame, w, h)) == Some(false)
  {
    var r := RecordCommand(p, frame, w, h, 1);
    assert Pass(p, frame, w, h) == [r[0], r[1], ComputeBarrier];
    GuardList(DispatchAfterDispatch, false, r[0], r[1], ComputeBarrier, ClearTarget, ClearTarget);
    GuardList(CopyRule, false, r[0], r[1], ComputeBarrier, ClearTarget, ClearTarget);
  }

  lemma IterationGuards(ps: TracerPipelines, frame: nat, w: nat, h: nat, i: nat, after: Command)
    requires ps == CreatePipelines() && after.Barrier?
    ensures ComputeToCompute(after) ==>
      Guard(DispatchAfterDispatch, false, ATrousIteration(ps, frame, w, h, i, after)) == Some(false)
    ensures ComputeBeforeTransfer(after) ==>
      Guard(CopyRule, false, ATrousIteration(ps, frame, w, h, i, after)) == Some(false)
    ensures !ComputeBeforeTransfer(after) ==>
      Guard(CopyRule, false, ATrousIteration(ps, frame, w, h, i, after)) == Some(true)
    ensures Guard(CopyRule, true, ATrousIteration(ps, frame, w, h, i, after)) == None
  {
    var r := RecordCommand(ps.aTrous, frame, w, h, 1);
    assert ATrousIteration(ps, frame, w, h, i, after) == [CopyStaging(i), CopyBarrier, r[0], r[1], after];
    GuardList(DispatchAfterDispatch, false, CopyStaging(i), CopyBarrier, r[0], r[1], after);
    GuardList(CopyRule, false, CopyStaging(i), CopyBarrier, r[0], r[1], after);
    GuardList(CopyRule, true, CopyStaging(i), CopyBarrier, r[0], r[1], after);
  }

  lemma {:induction false} LoopGuards(ps: TracerPipelines, frame: nat, w: nat, h: nat, n: nat, after: Command)
    requires ps == CreatePipelines() && after.Barrier?
    ensures ComputeToCompute(after) ==>
      Guard(DispatchAfterDispatch, false, ATrousLoop(ps, frame, w, h, n, after)) == Some(false)
    ensures ComputeBeforeTransfer(after) ==>
      Guard(CopyRule, false, ATrousLoop(ps, frame, w, h, n, after)) == Some(false)
    ensures !ComputeBeforeTransfer(after) ==>
      Guard(CopyRule, false, ATrousLoop(ps, frame, w, h, n, after)) == if n <= 1 then Some(n == 1) else None
  {
    hide *;
    LoopStep(ps, frame, w, h, n, after);
    if n == 0 {
      GuardSnoc(DispatchAfterDispatch, false, [], ClearTarget);
      GuardSnoc(CopyRule, false, [], ClearTarget);
    } else {
      var init, it := ATrousLoop(ps, frame, w, h, n - 1, after), ATrousIteration(ps, frame, w, h, n - 1, after);
      LoopGuards(ps, frame, w, h, n - 1, after);
      IterationGuards(ps, frame, w, h, n - 1, after);
      GuardConcat(DispatchAfterDispatch, false, init, it);
      GuardConcat(CopyRule, false, init, it);
    }
  }

  lemma PipelineNames()
    ensures ATrousSize == 5
    ensures CreatePipelines().coarseBeam.shaderFileName == CoarseBeamShader
    ensures CreatePipelines().tracing.shaderFileName == TracingShader
    ensures CreatePipelines().temporalFilter.shaderFileName == TemporalFilterShader
    ensures CreatePipelines().aTrous.shaderFileName == ATrousShader
    ensures CreatePipelines().postProcessing.shaderFileName == PostProcessingShader
    ensures DispatchOrder ==
      [CoarseBeamShader, TracingShader, TemporalFilterShader] + seq(5, _ => ATrousShader) + [PostProcessingShader]
    ensures CreatePipelines().coarseBeam.shaderFileName != ATrousShader
    ensures CreatePipelines().tracing.shaderFileName != ATrousShader
    ensures CreatePipelines().temporalFilter.shaderFileName != ATrousShader
    ensures CreatePipelines().postProcessing.shaderFileName != ATrousShader
  {
  }

  lemma PrologueIs()
    ensures Prologue() == [UboBarrier, ClearTarget]
    ensures !IsDispatch(UboBarrier) && !IsDispatch(ClearTarget)
  {
  }

  lemma PrologueGuards()
    ensures Guard(DispatchAfterDispatch, false, Prologue()) == Some(false)
    ensures Guard(CopyRule, false, Prologue()) == Some(false)
  {
    GuardList(DispatchAfterDispatch, false, UboBarrier, ClearTarget, ClearTarget, ClearTarget, ClearTarget);
    GuardList(CopyRule, false, UboBarrier, ClearTarget, ClearTarget, ClearTarget, ClearTarget);
  }

  lemma PostGuards(ps: TracerPipelines, frame: nat, w: nat, h: nat)
    requires ps == CreatePipelines()
    ensures Guard(DispatchAfterDispatch, false, RecordCommand(ps.postProcessing, frame, w, h, 1)) == Some(true)
    ensures Guard(CopyRule, false, RecordCommand(ps.postProcessing, frame, w, h, 1)) == Some(false)
  {
    var r := RecordCommand(ps.postProcessing, frame, w, h, 1);
    assert r == [r[0], r[1]];
    GuardList(DispatchAfterDispatch, false, r[0], r[1], ClearTarget, ClearTarget, ClearTarget);
    GuardList(CopyRule, false, r[0], r[1], ClearTarget, ClearTarget, ClearTarget);
  }

  lemma HistoryGuards(o: bool)
    ensures Guard(DispatchAfterDispatch, o, HistoryCopies()) == Some(o)
    ensures Guard(CopyRule, o, HistoryCopies()) == Some(o)
  {
    GuardInert(DispatchAfterDispatch, o, HistoryCopies());
    GuardInert(CopyRule, o, HistoryCopies());
  }

  /** The scans of a whole frame: with either barrier after the a-trous
      passes no two dispatches go unseparated, and the staging copies wait
      for the a-trous passes only when that barrier reaches the transfer
      stage. */
  lemma FrameGuards(frame: nat, w: nat, h: nat, after: Command)
    requires after.Barrier? && ComputeToCompute(after)
    ensures Guard(DispatchAfterDispatch, false, FrameCommands(frame, w, h, after)) == Some(true)
    ensures Guard(CopyRule, false, FrameCommands(frame, w, h, after)) ==
      if ComputeBeforeTransfer(after) then Some(false) else None
  {
    var ps := CreatePipelines();
    var a := Prologue();
    var b := Pass(ps.coarseBeam, frame, BeamExtent(w), BeamExtent(h));
    var c := Pass(ps.tracing, frame, w, h);
    var d := Pass(ps.temporalFilter, frame, w, h);
    var e := ATrousLoop(ps, frame, w, h, ATrousSize, after);
    var f := RecordCommand(ps.postProcessing, frame, w, h, 1);
    var g := HistoryCopies();
    hide *;
    FramePieces(frame, w, h, after);
    PipelineNames();
    PrologueGuards();
    PassGuards(ps.coarseBeam, frame, BeamExtent(w), BeamExtent(h));
    PassGuards(ps.tracing, frame, w, h);
    PassGuards(ps.temporalFilter, frame, w, h);
    LoopGuards(ps, frame, w, h, ATrousSize, after);
    PostGuards(ps, frame, w, h);
    HistoryGuards(true);
    HistoryGuards(false);
    GuardConcat(DispatchAfterDispatch, false, a, b);
    GuardConcat(DispatchAfterDispatch, false, a + b, c);
    GuardConcat(DispatchAfterDispatch, false, a + b + c, d);
    GuardConcat(DispatchAfterDispatch, false, a + b + c + d, e);
    GuardConcat(DispatchAfterDispatch, false, a + b + c + d + e, f);
    GuardConcat(DispatchAfterDispatch, false, a + b + c + d + e + f, g);
    GuardConcat(CopyRule, false, a, b);
    GuardConcat(CopyRule, false, a + b, c);
    GuardConcat(CopyRule, false, a + b + c, d);
    GuardConcat(CopyRule, false, a + b + c + d, e);
    GuardConcat(CopyRule, false, a + b + c + d + e, f);
    GuardConcat(CopyRule, false, a + b + c + d + e + f, g);
  }

  /** Every recorded tracing command list carries the staging copy race. */
  lemma TracingBuffersRace(framesInFlight: nat, w: nat, h: nat)
    ensures forall f :: 0 <= f < framesInFlight ==> !Safe(CopyRule, TracingCommandBuffers(framesInFlight, w, h)[f])
  {
    forall f | 0 <= f < framesInFlight
      ensures !Safe(CopyRule, TracingCommandBuffers(framesInFlight, w, h)[f])
    {
      assert TracingCommandBuffers(framesInFlight, w, h)[f] == AsWrittenTracingCommands(f, w, h);
    }
  }

  /** The first racing triple of a recorded frame: the a-trous dispatch of
      iteration 0 at position 14, its closing barrier at 15, which holds back
      only the compute stage, and the staging copy of iteration 1 at 16. */
  lemma AsWrittenCopyRaceWitness(frame: nat, w: nat, h: nat)
    ensures var r := AsWrittenTracingCommands(frame, w, h);
      |r| == 43 && r[14].Dispatch? && r[14].pipeline == ATrousShader &&
      r[15] == ComputeBarrier && r[16] == CopyStaging(1) &&
      TransferStage !in ComputeBarrier.dstStages
  {
    var r := AsWrittenTracingCommands(frame, w, h);
    FrameLayout(frame, w, h, ComputeBarrier);
    assert IterationAt(r, 11, frame, w, h, 0, ComputeBarrier);
    assert IterationAt(r, 11, frame, w, h, 1, ComputeBarrier);
    IterationCommands(frame, w, h, 0, ComputeBarrier);
    IterationCommands(frame, w, h, 1, ComputeBarrier);
    assert r[14] == r[11..16][3];
    assert r[15] == r[11..16][4];
    assert r[16] == r[16..21][0];
  }

  /** The commands of one a-trous iteration. */
  lemma IterationCommands(frame: nat, w: nat, h: nat, i: nat, after: Command)
    ensures var it := ATrousIteration(CreatePipelines(), frame, w, h, i, after);
      |it| == 5 && it[0] == CopyStaging(i) && it[1] == CopyBarrier && it[2] == Bind(ATrousShader, frame) &&
      it[3].Dispatch? && it[3].pipeline == ATrousShader && it[4] == after
  {
  }

  // ---------------------------------------------------------------------
  // Layout of a frame

  /** Iteration i of the a-trous loop sits at `start + 5 * i` of a list. */
  predicate IterationAt(cmds: seq<Command>, start: nat, frame: nat, w: nat, h: nat, i: nat, after: Command) {
    start + 5 * i + 5 <= |cmds| &&
    cmds[start + 5 * i..start + 5 * i + 5] == ATrousIteration(CreatePipelines(), frame, w, h, i, after)
  }

  /** The loop is its iterations laid end to end: iteration i copies staging
      buffer i, makes the copy visible, binds and dispatches the a-trous
      pipeline, then issues the barrier. */
  lemma {:induction false} LoopShape(frame: nat, w: nat, h: nat, n: nat, after: Command)
    ensures |ATrousLoop(CreatePipelines(), frame, w, h, n, after)| == 5 * n
    ensures forall i :: 0 <= i < n ==> IterationAt(ATrousLoop(CreatePipelines(), frame, w, h, n, after), 0, frame, w, h, i, after)
  {
    var ps := CreatePipelines();
    LoopStep(ps, frame, w, h, n, after);
    if n > 0 {
      var init, it := ATrousLoop(ps, frame, w, h, n - 1, after), ATrousIteration(ps, frame, w, h, n - 1, after);
      var loop := init + it;
      LoopShape(frame, w, h, n - 1, after);
      assert |it| == 5;
      forall i | 0 <= i < n ensures IterationAt(loop, 0, frame, w, h, i, after) {
        if i < n - 1 {
          assert IterationAt(init, 0, frame, w, h, i, after);
          assert loop[5 * i..5 * i + 5] == init[5 * i..5 * i + 5];
        } else {
          assert loop[5 * i..5 * i + 5] == it;
        }
      }
    }
  }

  /** A frame's list is 43 commands: the prologue, the coarse beam pass at
      2..4, the tracing and temporal filter passes, the a-trous loop at
      11..36, post-processing at 36..38 and the history copies last. */
  lemma FrameShape(frame: nat, w: nat, h: nat, after: Command)
    ensures var cmds, ps := FrameCommands(frame, w, h, after), CreatePipelines();
      |cmds| == 43 &&
      cmds[..2] == Prologue() &&
      cmds[2..4] == RecordCommand(ps.coarseBeam, frame, BeamExtent(w), BeamExtent(h), 1) &&
      cmds[2..5] == Pass(ps.coarseBeam, frame, BeamExtent(w), BeamExtent(h)) &&
      cmds[5..8] == Pass(ps.tracing, frame, w, h) &&
      cmds[8..11] == Pass(ps.temporalFilter, frame, w, h) &&
      cmds[11..36] == ATrousLoop(ps, frame, w, h, ATrousSize, after) &&
      cmds[36..38] == RecordCommand(ps.postProcessing, frame, w, h, 1) &&
      cmds[38..] == HistoryCopies()
  {
    var ps := CreatePipelines();
    var a := Prologue();
    var b := Pass(ps.coarseBeam, frame, BeamExtent(w), BeamExtent(h));
    var c := Pass(ps.tracing, frame, w, h);
    var d := Pass(ps.temporalFilter, frame, w, h);
    var e := ATrousLoop(ps, frame, w, h, ATrousSize, after);
    var f := RecordCommand(ps.postProcessing, frame, w, h, 1);
    var g := HistoryCopies();
    var cmds := a + b + c + d + e + f + g;
    hide *;
    FramePieces(frame, w, h, after);
    PipelineNames();
    PrologueIs();
    HistoryCopiesFacts();
    LoopShape(frame, w, h, ATrousSize, after);
    PassShape(ps.coarseBeam, frame, BeamExtent(w), BeamExtent(h));
    PassShape(ps.tracing, frame, w, h);
    PassShape(ps.temporalFilter, frame, w, h);
    assert cmds[..2] == a;
    assert cmds[2..5] == b;
    assert cmds[2..4] == b[..2];
    assert cmds[5..8] == c;
    assert cmds[8..11] == d;
    assert cmds[11..36] == e;
    assert cmds[36..38] == f;
    assert cmds[38..] == g;
  }

  lemma PassShape(p: Pipeline, frame: nat, w: nat, h: nat)
    requires PositiveSize(p.workGroupSize)
    ensures |Pass(p, frame, w, h)| == 3 && Pass(p, frame, w, h)[..2] == RecordCommand(p, frame, w, h, 1)
  {
  }

  /** Each frame starts by making the uniform buffers visible and clearing
      the render target, and the coarse beam dispatch covers the beam
      depth image. */
  lemma FrameStart(frame: nat, w: nat, h: nat, after: Command)
    ensures var cmds := FrameCommands(frame, w, h, after);
      |cmds| == 43 && cmds[0] == UboBarrier && cmds[1] == ClearTarget &&
      cmds[2] == Bind(CoarseBeamShader, frame) &&
      cmds[3].Dispatch? && cmds[3].pipeline == CoarseBeamShader &&
      Covers(cmds[3].gx, TileSize.x, BeamImageExtent(w, h).width) &&
      Covers(cmds[3].gy, TileSize.y, BeamImageExtent(w, h).height) &&
      Covers(cmds[3].gz, TileSize.z, BeamImageExtent(w, h).depth)
  {
    var cmds := FrameCommands(frame, w, h, after);
    FrameShape(frame, w, h, after);
    assert cmds[0] == cmds[..2][0] && cmds[1] == cmds[..2][1];
    assert cmds[2] == cmds[2..4][0] && cmds[3] == cmds[2..4][1];
  }

  /** Iteration i of the a-trous loop occupies positions 11 + 5i .. 16 + 5i
      of a frame, and the frame ends with the five history copies. */
  lemma FrameLayout(frame: nat, w: nat, h: nat, after: Command)
    ensures forall i :: 0 <= i < ATrousSize ==> IterationAt(FrameCommands(frame, w, h, after), 11, frame, w, h, i, after)
    ensures |FrameCommands(frame, w, h, after)| == 43
    ensures forall k :: 0 <= k < |HistoryPairs| ==> FrameCommands(frame, w, h, after)[38 + k] == ForwardCopy(HistoryPairs[k])
  {
    var cmds := FrameCommands(frame, w, h, after);
    var e := ATrousLoop(CreatePipelines(), frame, w, h, ATrousSize, after);
    FrameShape(frame, w, h, after);
    LoopShape(frame, w, h, ATrousSize, after);
    forall i | 0 <= i < ATrousSize ensures IterationAt(cmds, 11, frame, w, h, i, after) {
      assert IterationAt(e, 0, frame, w, h, i, after);
      assert cmds[11 + 5 * i..11 + 5 * i + 5] == e[5 * i..5 * i + 5];
    }
    HistoryCopiesFacts();
    forall k | 0 <= k < |HistoryPairs| ensures cmds[38 + k] == ForwardCopy(HistoryPairs[k]) {
      assert cmds[38 + k] == cmds[38..][k];
    }
  }

  // ---------------------------------------------------------------------
  // The a-trous iteration value

  /** The staging buffer most recently copied into the iteration buffer by
      a list, if any. */
  function LastCopy(cmds: seq<Command>): Option<nat>
    decreases |cmds|
  {
    if cmds == [] then None
    else if cmds[|cmds| - 1].CopyStaging? then Some(cmds[|cmds| - 1].index)
    else LastCopy(cmds[..|cmds| - 1])
  }

  lemma {:induction false} LastCopyConcat(a: seq<Command>, b: seq<Command>)
    ensures LastCopy(a + b) == if LastCopy(b).Some? then LastCopy(b) else LastCopy(a)
    decreases |b|
  {
    if b == [] {
      assert a + b == a;
    } else {
      assert (a + b)[..|a + b| - 1] == a + b[..|b| - 1];
      LastCopyConcat(a, b[..|b| - 1]);
    }
  }

  /** The scene information and the staging buffers the tracer fills once:
      staging buffer i holds the iteration number i. */
  datatype SceneInfo = SceneInfo(beamResolution: nat, voxelLevelCount: nat)

  method InitBufferData(voxelLevelCount: nat) returns (info: SceneInfo, staging: seq<bv32>)
    ensures info == SceneInfo(BeamResolution, voxelLevelCount)
    ensures |staging| == ATrousSize
    ensures forall i :: 0 <= i < |staging| ==> staging[i] as nat == i
  {
    info := SceneInfo(BeamResolution, voxelLevelCount);
    staging := [];
    var i: bv32 := 0;
    while i < ATrousSize as bv32
      invariant i as nat <= ATrousSize && |staging| == i as nat
      invariant forall k :: 0 <= k < |staging| ==> staging[k] as nat == k
    {
      staging := staging + [i];
      i := i + 1;
    }
  }

  /** When a-trous dispatch i of a frame runs, the copy made visible to it
      last is that of staging buffer i, which holds the value i: each pass
      reads its own iteration number. */
  lemma PassReadsItsIteration(frame: nat, w: nat, h: nat, after: Command, i: nat)
    requires i < ATrousSize
    ensures var cmds := FrameCommands(frame, w, h, after);
      14 + 5 * i < |cmds| &&
      cmds[14 + 5 * i].Dispatch? && cmds[14 + 5 * i].pipeline == ATrousShader &&
      LastCopy(cmds[..14 + 5 * i]) == Some(i) &&
      cmds[11 + 5 * i] == CopyStaging(i) && cmds[12 + 5 * i] == CopyBarrier
  {
    var cmds := FrameCommands(frame, w, h, after);
    var s := 11 + 5 * i;
    FrameLayout(frame, w, h, after);
    assert IterationAt(cmds, 11, frame, w, h, i, after);
    IterationCommands(frame, w, h, i, after);
    var it := cmds[s..s + 5];
    assert it == ATrousIteration(CreatePipelines(), frame, w, h, i, after);
    assert !it[2].CopyStaging? && !it[1].CopyStaging? && it[0] == CopyStaging(i);
    assert cmds[s + 3] == it[3] && cmds[s] == it[0] && cmds[s + 1] == it[1];
    assert cmds[..s + 3] == cmds[..s] + [it[0], it[1], it[2]];
    LastCopyConcat(cmds[..s], [it[0], it[1], it[2]]);
    LastCopyOfCopyThenTwo(it[0], it[1], it[2]);
  }

  lemma LastCopyOfCopyThenTwo(a: Command, b: Command, c: Command)
    requires a.CopyStaging? && !b.CopyStaging? && !c.CopyStaging?
    ensures LastCopy([a, b, c]) == Some(a.index)
  {
    assert [a, b, c][..2] == [a, b];
    assert [a, b][..1] == [a];
    assert LastCopy([a]) == Some(a.index);
    assert LastCopy([a, b]) == LastCopy([a]);
  }

  // ---------------------------------------------------------------------
  // Forwarding pairs and delivery

  /** The target pairs: the render target into each swapchain image. */
  function TargetPairs(swapchainImages: nat): (r: seq<Pair>)
    ensures |r| == swapchainImages
    ensures forall j :: 0 <= j < swapchainImages ==> r[j].src == RenderTarget && r[j].dst == SwapchainImage(j)
  {
    seq(swapchainImages, j requires 0 <= j => Pair(RenderTarget, SwapchainImage(j)))
  }

  /** All forwarding pairs the tracer creates: the five history pairs and
      one target pair per swapchain image. */
  function ForwardingPairs(swapchainImages: nat): (r: seq<Pair>)
    ensures |r| == |HistoryPairs| + swapchainImages
    ensures r[..|HistoryPairs|] == HistoryPairs && r[|HistoryPairs|..] == TargetPairs(swapchainImages)
  {
    HistoryPairs + TargetPairs(swapchainImages)
  }

  /** No two forwarding pairs write the same image. */
  lemma ForwardingDestinationsDistinct(swapchainImages: nat)
    ensures var r := ForwardingPairs(swapchainImages);
      forall i, j :: 0 <= i < j < |r| ==> r[i].dst != r[j].dst
  {
    var r := ForwardingPairs(swapchainImages);
    forall i, j | 0 <= i < j < |r| ensures r[i].dst != r[j].dst {
      if j >= |HistoryPairs| {
        assert r[j] == TargetPairs(swapchainImages)[j - |HistoryPairs|];
        if i >= |HistoryPairs| {
          assert r[i] == TargetPairs(swapchainImages)[i - |HistoryPairs|];
        }
      }
    }
  }

  /** One delivery list per swapchain image, each holding only the forward
      copy of that image's target pair. */
  function DeliveryCommandBuffers(swapchainImages: nat): (r: seq<seq<Command>>)
    ensures |r| == swapchainImages
    ensures forall j :: 0 <= j < swapchainImages ==>
      r[j] == [ForwardCopy(Pair(RenderTarget, SwapchainImage(j)))] && Dispatched(r[j]) == []
  {
    var pairs := TargetPairs(swapchainImages);
    seq(swapchainImages, j requires 0 <= j < swapchainImages =>
      NoDispatches([ForwardCopy(pairs[j])]);
      [ForwardCopy(pairs[j])])
  }
}
