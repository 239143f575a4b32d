/** A compute pipeline: its dispatch recording (bind, then dispatch enough
    workgroups to cover the requested threads) and the caching of its
    compiled shader module. */
module ComputePipeline {
  import opened Commands
  import opened Arith

  /** Threads per workgroup along each axis. */
  datatype WorkGroupSize = WorkGroupSize(x: nat, y: nat, z: nat)

  /** Every pipeline the tracer creates uses a positive size on each axis. */
  predicate PositiveSize(s: WorkGroupSize) {
    s.x > 0 && s.y > 0 && s.z > 0
  }

  /** A cached shader module: none yet, or one created from compiled code. */
  datatype ShaderModule = NullModule | ShaderModule(code: seq<bv32>)

  datatype Pipeline = Pipeline(shaderFileName: string, workGroupSize: WorkGroupSize, cachedModule: ShaderModule)

  // ---------------------------------------------------------------------
  // Dispatch sizing

  /** g groups of s threads are the fewest that cover n threads. */
  predicate Covers(g: nat, s: nat, n: nat) {
    g * s >= n && (g - 1) * s < n
  }

  /** The number of workgroups of size s that covers n threads. */
  function CeilDiv(n: nat, s: nat): (g: nat)
    requires s > 0
    ensures Covers(g, s, n)
  {
    var g := (n + s - 1) / s;
    assert g * s <= n + s - 1 < (g + 1) * s;
    g
  }

  /** The covering count is unique, so `CeilDiv` is exactly the rounded-up
      quotient: a count covers n threads if and only if it is `CeilDiv(n, s)`. */
  lemma CeilDivUnique(g: nat, s: nat, n: nat)
    requires s > 0
    ensures Covers(g, s, n) <==> g == CeilDiv(n, s)
  {
    var c := CeilDiv(n, s);
    if Covers(g, s, n) {
      assert s * (g as int - 1) < n <= s * c;
      MulCancelLess(s, g as int - 1, c);
      assert s * (c as int - 1) < n <= s * g;
      MulCancelLess(s, c as int - 1, g);
    }
  }

  /** No threads need no groups, and a multiple of the size needs exactly the
      quotient. */
  lemma CeilDivExamples(s: nat, k: nat)
    requires s > 0
    ensures CeilDiv(0, s) == 0
    ensures CeilDiv(k * s, s) == k
    ensures CeilDiv(k * s + 1, s) == k + 1
  {
    CeilDivUnique(0, s, 0);
    assert Covers(k, s, k * s) by {
      assert (k - 1) * s == k * s - s;
    }
    CeilDivUnique(k, s, k * s);
    assert Covers(k + 1, s, k * s + 1) by {
      assert (k + 1) * s == k * s + s;
    }
    CeilDivUnique(k + 1, s, k * s + 1);
  }

  // ---------------------------------------------------------------------
  // Recording

  /** Records a dispatch: binds the pipeline for the frame, then dispatches
      the fewest workgroups that cover the requested threads on every axis. */
  function RecordCommand(p: Pipeline, frame: nat, tx: nat, ty: nat, tz: nat): (r: seq<Command>)
    requires PositiveSize(p.workGroupSize)
    ensures |r| == 2 && r[0] == Bind(p.shaderFileName, frame) && r[1].Dispatch? && r[1].pipeline == p.shaderFileName
    ensures Covers(r[1].gx, p.workGroupSize.x, tx) && Covers(r[1].gy, p.workGroupSize.y, ty) &&
            Covers(r[1].gz, p.workGroupSize.z, tz)
    ensures SelfBound(r) && Dispatched(r) == [p.shaderFileName]
  {
    var s := p.workGroupSize;
    var r := [Bind(p.shaderFileName, frame),
              Dispatch(p.shaderFileName, CeilDiv(tx, s.x), CeilDiv(ty, s.y), CeilDiv(tz, s.z))];
    assert r[..1] == [r[0]];
    assert Dispatched(r[..1]) == [] by {
      assert r[..1][..0] == [];
    }
    r
  }

  /** Records an indirect dispatch: binds the pipeline for the frame, then
      dispatches with the group counts read from the given buffer. */
  function RecordIndirectCommand(p: Pipeline, frame: nat, buffer: nat): (r: seq<Command>)
    ensures |r| == 2 && r[0] == Bind(p.shaderFileName, frame)
    ensures SelfBound(r) && Dispatched(r) == [p.shaderFileName]
  {
    var r := [Bind(p.shaderFileName, frame), DispatchIndirect(p.shaderFileName, buffer)];
    assert r[..1] == [r[0]];
    assert Dispatched(r[..1]) == [] by {
      assert r[..1][..0] == [];
    }
    r
  }

  // ---------------------------------------------------------------------
  // Shader module caching

  /** What caching a freshly compiled module leads to: the process exits, or
      the call returns with the pipeline's new state, the module it released,
      and its boolean result. */
  datatype CacheOutcome =
    | Exited
    | Returned(pipeline: Pipeline, released: Option<ShaderModule>, result: bool)

  /** Caches the module compiled from the pipeline's shader file
      (`compiled` is the compiler's output, None on a compile error). A
      failed compile ends the process unless failure is allowed; a
      successful one releases the old module and caches the new one. */
  function BuildAndCacheShaderModule(p: Pipeline, allowBuildFail: bool, compiled: Option<seq<bv32>>): (r: CacheOutcome)
    ensures r.Exited? <==> !allowBuildFail && compiled.None?
    ensures r.Returned? ==> (r.result <==> compiled.Some?)
    ensures r.Returned? ==> r.pipeline.shaderFileName == p.shaderFileName && r.pipeline.workGroupSize == p.workGroupSize
    ensures r.Returned? && r.result ==> r.pipeline.cachedModule != NullModule && r.released == Some(p.cachedModule)
    ensures r.Returned? && !r.result ==> r.pipeline == p && r.released == None
  {
    if !allowBuildFail && compiled.None? then Exited
    else if compiled.Some? then Returned(p.(cachedModule := ShaderModule(compiled.value)), Some(p.cachedModule), true)
    else Returned(p, None, false)
  }

  /** What building the pipeline object reports: whether it logged the
      null-module error, and the module its shader stage uses. */
  datatype BuildReport = BuildReport(errorLogged: bool, stageModule: ShaderModule)

  /** Builds the pipeline object from the cached module. A missing module is
      reported as an error, and the build goes on with it. */
  function Build(p: Pipeline): (r: BuildReport)
    ensures r.stageModule == p.cachedModule
  {
    BuildReport(p.cachedModule == NullModule, p.cachedModule)
  }

  /** Caching and building together: after a successful cache the build uses
      the new module and reports no error; after an allowed failure the
      pipeline builds exactly as before; and a pipeline that never cached a
      module reports the error. */
  lemma CacheThenBuild(p: Pipeline, allowBuildFail: bool, compiled: Option<seq<bv32>>)
    ensures var r := BuildAndCacheShaderModule(p, allowBuildFail, compiled);
      (r.Returned? && r.result ==> !Build(r.pipeline).errorLogged && Build(r.pipeline).stageModule == ShaderModule(compiled.value)) &&
      (r.Returned? && !r.result ==> Build(r.pipeline) == Build(p))
    ensures p.cachedModule == NullModule ==> Build(p).errorLogged
    ensures Build(p).errorLogged <==> Build(p).stageModule == NullModule
  {
  }
}
