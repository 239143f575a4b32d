/** The recorded GPU commands, as an abstract vocabulary: barriers with their
    stage and access masks, pipeline binds, dispatches and copies. A command
    buffer is a sequence of these. */
module Commands {

  datatype Option<T> = None | Some(value: T)

  /** Pipeline stages named in the barriers. */
  datatype Stage = HostStage | ComputeStage | TransferStage

  /** Memory access kinds named in the barriers. */
  datatype Access = HostWrite | ShaderRead | ShaderWrite | TransferRead | TransferWrite

  /** Images that take part in forwarding copies. */
  datatype Image =
    | NormalImage | LastNormalImage
    | PositionImage | LastPositionImage
    | VoxHashImage | LastVoxHashImage
    | AccumedImage | LastAccumedImage
    | VarianceHistImage | LastVarianceHistImage
    | RenderTarget
    | SwapchainImage(index: nat)

  /** A forwarding pair copies its source image into its destination. */
  datatype Pair = Pair(src: Image, dst: Image)

  datatype Command =
    | Barrier(srcStages: set<Stage>, dstStages: set<Stage>, srcAccess: set<Access>, dstAccess: set<Access>)
    | ClearTarget
    | Bind(pipeline: string, frame: nat)
    | Dispatch(pipeline: string, gx: nat, gy: nat, gz: nat)
    | DispatchIndirect(pipeline: string, buffer: nat)
    | CopyStaging(index: nat)
    | ForwardCopy(pair: Pair)

  predicate IsDispatch(c: Command) {
    c.Dispatch? || c.DispatchIndirect?
  }

  /** The pipeline a dispatch runs. */
  function DispatchedPipeline(c: Command): string
    requires IsDispatch(c)
  {
    c.pipeline
  }

  // ---------------------------------------------------------------------
  // Binding

  /** The pipeline bound by the latest bind of a command list, if any. */
  function LastBound(cmds: seq<Command>): Option<string>
    decreases |cmds|
  {
    if cmds == [] then None
    else if cmds[|cmds| - 1].Bind? then Some(cmds[|cmds| - 1].pipeline)
    else LastBound(cmds[..|cmds| - 1])
  }

  /** Every dispatch runs the pipeline bound last before it, within the list
      itself. */
  predicate SelfBound(cmds: seq<Command>) {
    forall i :: 0 <= i < |cmds| && IsDispatch(cmds[i]) ==> LastBound(cmds[..i]) == Some(DispatchedPipeline(cmds[i]))
  }

  /** A bind found in the second half of a list wins over the first half. */
  lemma {:induction false} LastBoundConcat(a: seq<Command>, b: seq<Command>)
    ensures LastBound(a + b) == if LastBound(b).Some? then LastBound(b) else LastBound(a)
    decreases |b|
  {
    if b == [] {
      assert a + b == a;
    } else {
      assert (a + b)[..|a + b| - 1] == a + b[..|b| - 1];
      LastBoundConcat(a, b[..|b| - 1]);
    }
  }

  /** Self-bound lists stay self-bound when concatenated: binding is local to
      each recorded block. */
  lemma SelfBoundConcat(a: seq<Command>, b: seq<Command>)
    requires SelfBound(a) && SelfBound(b)
    ensures SelfBound(a + b)
  {
    forall i | 0 <= i < |a + b| && IsDispatch((a + b)[i])
      ensures LastBound((a + b)[..i]) == Some(DispatchedPipeline((a + b)[i]))
    {
      if i < |a| {
        assert (a + b)[..i] == a[..i];
      } else {
        var k := i - |a|;
        assert (a + b)[..i] == a + b[..k];
        assert (a + b)[i] == b[k];
        LastBoundConcat(a, b[..k]);
      }
    }
  }

  /** A list without dispatches is trivially self-bound. */
  lemma NoDispatchSelfBound(cmds: seq<Command>)
    requires forall i :: 0 <= i < |cmds| ==> !IsDispatch(cmds[i])
    ensures SelfBound(cmds)
  {
  }

  // ---------------------------------------------------------------------
  // The dispatch order

  /** The pipelines the dispatches of a list run, in order. */
  function Dispatched(cmds: seq<Command>): seq<string>
    decreases |cmds|
  {
    if cmds == [] then []
    else
      var last := cmds[|cmds| - 1];
      Dispatched(cmds[..|cmds| - 1]) + (if IsDispatch(last) then [DispatchedPipeline(last)] else [])
  }

  lemma {:induction false} DispatchedConcat(a: seq<Command>, b: seq<Command>)
    ensures Dispatched(a + b) == Dispatched(a) + Dispatched(b)
    decreases |b|
  {
    if b == [] {
      assert a + b == a;
    } else {
      assert (a + b)[..|a + b| - 1] == a + b[..|b| - 1];
      DispatchedConcat(a, b[..|b| - 1]);
    }
  }

  /** A list's dispatches are exactly the positions `Dispatched` reports: each
      reported pipeline is run by a dispatch of the list, in order. */
  lemma {:induction false} DispatchedMembers(cmds: seq<Command>, name: string)
    ensures name in Dispatched(cmds) <==> exists i :: 0 <= i < |cmds| && IsDispatch(cmds[i]) && DispatchedPipeline(cmds[i]) == name
    decreases |cmds|
  {
    if cmds != [] {
      var init := cmds[..|cmds| - 1];
      DispatchedMembers(init, name);
      if exists i :: 0 <= i < |init| && IsDispatch(init[i]) && DispatchedPipeline(init[i]) == name {
        var i :| 0 <= i < |init| && IsDispatch(init[i]) && DispatchedPipeline(init[i]) == name;
        assert cmds[i] == init[i];
      }
      if exists i :: 0 <= i < |cmds| && IsDispatch(cmds[i]) && DispatchedPipeline(cmds[i]) == name {
        var i :| 0 <= i < |cmds| && IsDispatch(cmds[i]) && DispatchedPipeline(cmds[i]) == name;
        if i < |init| {
          assert init[i] == cmds[i];
        }
      }
    }
  }

  // ---------------------------------------------------------------------
  // Ordering rules

  /** Ordering rules over a command list: each names the commands that open
      a hazard, the commands that must not run while it is open, and the
      barriers that close it. */
  datatype Rule =
    /** Two dispatches need a barrier making compute writes visible to
        compute reads and writes. */
    | DispatchAfterDispatch
    /** A staging copy into the iteration buffer must wait for the dispatches
        of the named pipeline, which read that buffer. */
    | CopyAfterReads(reader: string)

  /** A barrier that makes compute shader writes visible to later compute
      shader reads and writes. */
  predicate ComputeToCompute(c: Command) {
    c.Barrier? && ComputeStage in c.srcStages && ComputeStage in c.dstStages &&
    ShaderWrite in c.srcAccess && ShaderRead in c.dstAccess && ShaderWrite in c.dstAccess
  }

  /** A barrier that orders earlier compute work before later transfers. */
  predicate ComputeBeforeTransfer(c: Command) {
    c.Barrier? && ComputeStage in c.srcStages && TransferStage in c.dstStages
  }

  predicate Opens(rule: Rule, c: Command) {
    match rule
    case DispatchAfterDispatch => IsDispatch(c)
    case CopyAfterReads(reader) => IsDispatch(c) && DispatchedPipeline(c) == reader
  }

  predicate Checked(rule: Rule, c: Command) {
    match rule
    case DispatchAfterDispatch => IsDispatch(c)
    case CopyAfterReads(_) => c.CopyStaging?
  }

  predicate Closes(rule: Rule, c: Command) {
    match rule
    case DispatchAfterDispatch => ComputeToCompute(c)
    case CopyAfterReads(_) => ComputeBeforeTransfer(c)
  }

  /** One step of the scan: a checked command met while the rule is open is
      a violation (None); otherwise opening and closing commands set the
      state and every other command keeps it. */
  function Step(rule: Rule, o: bool, c: Command): Option<bool> {
    if Checked(rule, c) && o then None
    else if Opens(rule, c) then Some(true)
    else if Closes(rule, c) then Some(false)
    else Some(o)
  }

  /** Scans a list for a checked command met while the rule is open. `open`
      says whether an opening command was seen with no closing barrier after
      it; the result is None when a violation is found and otherwise the
      state at the end. */
  function Guard(rule: Rule, open: bool, cmds: seq<Command>): Option<bool>
    decreases |cmds|
  {
    if cmds == [] then Some(open)
    else
      match Guard(rule, open, cmds[..|cmds| - 1])
      case None => None
      case Some(o) => Step(rule, o, cmds[|cmds| - 1])
  }

  function Then(rule: Rule, g: Option<bool>, c: Command): Option<bool> {
    match g
    case None => None
    case Some(o) => Step(rule, o, c)
  }

  lemma GuardSnoc(rule: Rule, open: bool, init: seq<Command>, c: Command)
    ensures Guard(rule, open, []) == Some(open)
    ensures Guard(rule, open, init + [c]) == Then(rule, Guard(rule, open, init), c)
  {
    assert (init + [c])[..|init|] == init;
  }

  lemma {:induction false} GuardConcat(rule: Rule, open: bool, a: seq<Command>, b: seq<Command>)
    ensures Guard(rule, open, a + b) ==
      match Guard(rule, open, a) case None => None case Some(o) => Guard(rule, o, b)
    decreases |b|
  {
    if b == [] {
      assert a + b == a;
    } else {
      assert (a + b)[..|a + b| - 1] == a + b[..|b| - 1];
      GuardConcat(rule, open, a, b[..|b| - 1]);
    }
  }

  /** Whether a closing barrier of the rule lies strictly between positions
      i and j. */
  predicate ClosedBetween(rule: Rule, cmds: seq<Command>, i: int, j: int)
    requires 0 <= i && j <= |cmds|
  {
    exists k :: i < k < j && Closes(rule, cmds[k])
  }

  /** The list is free of hazards for the rule: every checked command that
      follows an opening command has a closing barrier between the two. */
  predicate Safe(rule: Rule, cmds: seq<Command>) {
    forall i, j :: 0 <= i < j < |cmds| && Opens(rule, cmds[i]) && Checked(rule, cmds[j]) ==>
      ClosedBetween(rule, cmds, i, j)
  }

  /** Some opening command of the list has no closing barrier after it. */
  predicate Pending(rule: Rule, cmds: seq<Command>) {
    exists i :: 0 <= i < |cmds| && Opens(rule, cmds[i]) && !ClosedBetween(rule, cmds, i, |cmds|)
  }

  /** Appending a command keeps the barriers between earlier positions, and
      adds itself to the ones after an earlier position. */
  lemma ClosedSnoc(rule: Rule, init: seq<Command>, c: Command, i: nat, j: nat)
    requires i <= j <= |init|
    ensures ClosedBetween(rule, init + [c], i, j) <==> ClosedBetween(rule, init, i, j)
    ensures i < |init| ==>
      (ClosedBetween(rule, init + [c], i, |init| + 1) <==> ClosedBetween(rule, init, i, |init|) || Closes(rule, c))
  {
    var cmds := init + [c];
    if ClosedBetween(rule, init, i, j) {
      var k :| i < k < j && Closes(rule, init[k]);
      assert cmds[k] == init[k];
    }
    if ClosedBetween(rule, cmds, i, j) {
      var k :| i < k < j && Closes(rule, cmds[k]);
      assert cmds[k] == init[k];
    }
    if i < |init| {
      if ClosedBetween(rule, init, i, |init|) {
        var k :| i < k < |init| && Closes(rule, init[k]);
        assert cmds[k] == init[k];
      }
      if ClosedBetween(rule, cmds, i, |init| + 1) {
        var k :| i < k < |init| + 1 && Closes(rule, cmds[k]);
        assert k < |init| ==> cmds[k] == init[k];
      }
      if Closes(rule, c) {
        assert cmds[|init|] == c;
      }
    }
  }

  /** An open hazard remains after a command exactly when the command opens
      one, or it does not close and one was open before. */
  lemma PendingSnoc(rule: Rule, init: seq<Command>, c: Command)
    ensures Pending(rule, init + [c]) <==> Opens(rule, c) || (!Closes(rule, c) && Pending(rule, init))
  {
    var cmds, n := init + [c], |init|;
    if Opens(rule, c) {
      assert cmds[n] == c && !ClosedBetween(rule, cmds, n, n + 1);
    }
    if Pending(rule, cmds) && !Opens(rule, c) {
      var i :| 0 <= i < |cmds| && Opens(rule, cmds[i]) && !ClosedBetween(rule, cmds, i, |cmds|);
      assert i < n && cmds[i] == init[i];
      ClosedSnoc(rule, init, c, i, i);
    }
    if !Closes(rule, c) && Pending(rule, init) {
      var i :| 0 <= i < n && Opens(rule, init[i]) && !ClosedBetween(rule, init, i, n);
      assert cmds[i] == init[i];
      ClosedSnoc(rule, init, c, i, i);
    }
  }

  /** A list stays safe after a command exactly when it was safe and the
      command is not checked while a hazard is open. */
  lemma SafeSnoc(rule: Rule, init: seq<Command>, c: Command)
    ensures Safe(rule, init + [c]) <==> Safe(rule, init) && !(Checked(rule, c) && Pending(rule, init))
  {
    var cmds, n := init + [c], |init|;
    if Safe(rule, cmds) {
      forall i, j | 0 <= i < j < n && Opens(rule, init[i]) && Checked(rule, init[j])
        ensures ClosedBetween(rule, init, i, j)
      {
        assert cmds[i] == init[i] && cmds[j] == init[j];
        ClosedSnoc(rule, init, c, i, j);
      }
      if Checked(rule, c) && Pending(rule, init) {
        var i :| 0 <= i < n && Opens(rule, init[i]) && !ClosedBetween(rule, init, i, n);
        assert cmds[i] == init[i] && cmds[n] == c;
        ClosedSnoc(rule, init, c, i, n);
        assert false;
      }
    }
    if Safe(rule, init) && !(Checked(rule, c) && Pending(rule, init)) {
      forall i, j | 0 <= i < j < |cmds| && Opens(rule, cmds[i]) && Checked(rule, cmds[j])
        ensures ClosedBetween(rule, cmds, i, j)
      {
        assert cmds[i] == init[i];
        ClosedSnoc(rule, init, c, i, j);
        if j < n {
          assert cmds[j] == init[j];
        } else {
          assert cmds[j] == c && !Pending(rule, init);
        }
      }
    }
  }

  /** The scan from a closed state decides safety exactly, and its end state
      says whether a hazard is still open. */
  lemma {:induction false} GuardExact(rule: Rule, cmds: seq<Command>)
    ensures Guard(rule, false, cmds) == if Safe(rule, cmds) then Some(Pending(rule, cmds)) else None
    decreases |cmds|
  {
    if cmds == [] {
      GuardSnoc(rule, false, [], ClearTarget);
      assert !Pending(rule, cmds);
    } else {
      var init, c := cmds[..|cmds| - 1], cmds[|cmds| - 1];
      assert cmds == init + [c];
      GuardExact(rule, init);
      GuardSnoc(rule, false, init, c);
      PendingSnoc(rule, init, c);
      SafeSnoc(rule, init, c);
    }
  }

  /** The scan is sound and complete: it accepts a list exactly when the list
      is safe. */
  lemma GuardSound(rule: Rule, cmds: seq<Command>)
    ensures Guard(rule, false, cmds).Some? <==> Safe(rule, cmds)
  {
    GuardExact(rule, cmds);
  }

  /** A list whose commands neither open, close nor are checked leaves the
      scan's state as it was. */
  lemma {:induction false} GuardInert(rule: Rule, o: bool, cmds: seq<Command>)
    requires forall k :: 0 <= k < |cmds| ==> !Opens(rule, cmds[k]) && !Closes(rule, cmds[k]) && !Checked(rule, cmds[k])
    ensures Guard(rule, o, cmds) == Some(o)
    decreases |cmds|
  {
    if cmds != [] {
      var init, c := cmds[..|cmds| - 1], cmds[|cmds| - 1];
      assert cmds == init + [c];
      assert forall k :: 0 <= k < |init| ==> init[k] == cmds[k];
      GuardInert(rule, o, init);
      GuardSnoc(rule, o, init, c);
    }
  }
}
