/** The shader hot-reload bookkeeping: which shader files are watched, which
    pipeline each file belongs to, and which pipelines wait to be rebuilt,
    grouped by the scheduler that owns them. File events and the blocked
    render loop are handled one at a time. */
module ShaderListener {

  /** A pipeline as the listener sees it: its identity, the shader file it
      is built from and the scheduler that owns it. */
  datatype PipelineRef = PipelineRef(id: nat, shaderFileName: string, scheduler: nat)

  /** The kinds of file action the watcher reports. */
  datatype Action = Added | Deleted | Modified | Moved

  datatype State = State(
    watching: set<string>,
    byName: map<string, PipelineRef>,
    pending: map<nat, set<PipelineRef>>)

  /** Handling a call: it returns with a new state (and whether a render
      loop block was requested), the process exits, or a missing map entry
      is dereferenced. */
  datatype Outcome =
    | Continue(st: State, blockRequested: bool)
    | Exit
    | Fault

  /** Every watched name is mapped to a pipeline and back, and each pending
      pipeline is filed under its own scheduler. */
  ghost predicate Valid(st: State) {
    st.watching == st.byName.Keys &&
    (forall s, p :: s in st.pending && p in st.pending[s] ==> p.scheduler == s)
  }

  /** All pipelines waiting to be rebuilt. */
  ghost function PendingSet(pending: map<nat, set<PipelineRef>>): set<PipelineRef> {
    set s, p | s in pending && p in pending[s] :: p
  }

  /** Files a pipeline under its scheduler. */
  function AddPending(pending: map<nat, set<PipelineRef>>, p: PipelineRef): (r: map<nat, set<PipelineRef>>)
    ensures r.Keys == pending.Keys + {p.scheduler}
    ensures forall s :: s in r ==> r[s] == (if s in pending then pending[s] else {}) + (if s == p.scheduler then {p} else {})
  {
    pending[p.scheduler := (if p.scheduler in pending then pending[p.scheduler] else {}) + {p}]
  }

  lemma AddPendingSet(pending: map<nat, set<PipelineRef>>, p: PipelineRef)
    ensures PendingSet(AddPending(pending, p)) == PendingSet(pending) + {p}
  {
    var r := AddPending(pending, p);
    forall q | q in PendingSet(r) ensures q in PendingSet(pending) + {p} {
      var s :| s in r && q in r[s];
      if q != p {
        assert s in pending && q in pending[s];
      }
    }
    forall q | q in PendingSet(pending) ensures q in PendingSet(r) {
      var s :| s in pending && q in pending[s];
      assert s in r && q in r[s];
    }
    assert p.scheduler in r && p in r[p.scheduler];
  }

  /** A file event. Only a modification of a watched file matters: its
      pipeline is filed for rebuilding and a block of the render loop is
      requested. */
  function HandleFileAction(st: State, filename: string, action: Action): (r: Outcome)
    ensures Valid(st) ==> !r.Fault?
    ensures !r.Exit?
    ensures r.Continue? ==> r.st.watching == st.watching && r.st.byName == st.byName
    ensures r.Continue? ==> (r.blockRequested <==> action == Modified && filename in st.watching)
    ensures r.Continue? && !r.blockRequested ==> r.st == st
    ensures r.Continue? && r.blockRequested ==>
      filename in st.byName && r.st.pending == AddPending(st.pending, st.byName[filename])
    ensures r.Continue? && Valid(st) ==> Valid(r.st)
  {
    if action != Modified then Continue(st, false)
    else if filename !in st.watching then Continue(st, false)
    else if filename !in st.byName then Fault
    else
      var p := st.byName[filename];
      Continue(st.(pending := AddPending(st.pending, p)), true)
  }

  /** A modification of a watched file puts exactly its pipeline among the
      pending ones. */
  lemma ModifiedFilesPipeline(st: State, filename: string)
    requires Valid(st) && filename in st.watching
    ensures var r := HandleFileAction(st, filename, Modified);
      r.Continue? && r.blockRequested &&
      PendingSet(r.st.pending) == PendingSet(st.pending) + {st.byName[filename]}
  {
    AddPendingSet(st.pending, st.byName[filename]);
  }

  /** An editor that saves twice: the second event requests another block
      but leaves the state as the first one left it. */
  lemma HandleFileActionIdempotent(st: State, filename: string, action: Action)
    requires HandleFileAction(st, filename, action).Continue?
    ensures var r := HandleFileAction(st, filename, action);
      HandleFileAction(r.st, filename, action) == Continue(r.st, r.blockRequested)
  {
    var r := HandleFileAction(st, filename, action);
    if r.blockRequested {
      var p := st.byName[filename];
      assert AddPending(r.st.pending, p) == r.st.pending;
    }
  }

  /** Starts watching a pipeline's shader file. The name joins the watched
      set first; if it was already mapped to a pipeline the process exits. */
  function AddWatchingItem(st: State, p: PipelineRef): (r: Outcome)
    ensures r.Exit? <==> p.shaderFileName in st.byName
    ensures !r.Fault?
    ensures r.Continue? ==> !r.blockRequested
    ensures r.Continue? ==>
      r.st.watching == st.watching + {p.shaderFileName} &&
      r.st.byName.Keys == st.byName.Keys + {p.shaderFileName} &&
      r.st.byName[p.shaderFileName] == p &&
      (forall n :: n in st.byName ==> r.st.byName[n] == st.byName[n]) &&
      r.st.pending == st.pending
    ensures r.Continue? && Valid(st) ==> Valid(r.st)
  {
    var name := p.shaderFileName;
    var inserted := st.(watching := st.watching + {name});
    if name in st.byName then Exit
    else Continue(inserted.(byName := st.byName[name := p]), false)
  }

  /** Stops watching a pipeline's shader file: the name leaves the watched
      set and the map, and nothing else changes. */
  function RemoveWatchingItem(st: State, p: PipelineRef): (r: State)
    ensures r.watching == st.watching - {p.shaderFileName}
    ensures r.byName.Keys == st.byName.Keys - {p.shaderFileName}
    ensures forall n :: n in r.byName ==> r.byName[n] == st.byName[n]
    ensures r.pending == st.pending
    ensures Valid(st) ==> Valid(r)
  {
    var name := p.shaderFileName;
    st.(watching := st.watching - {name}, byName := st.byName - {name})
  }

  /** Adding a pipeline and removing it again restores the state. */
  lemma AddThenRemove(st: State, p: PipelineRef)
    requires Valid(st) && p.shaderFileName !in st.byName
    ensures AddWatchingItem(st, p).Continue?
    ensures RemoveWatchingItem(AddWatchingItem(st, p).st, p) == st
  {
    var r := RemoveWatchingItem(AddWatchingItem(st, p).st, p);
    assert r.watching == st.watching;
    assert r.byName == st.byName;
  }

  /** The render loop is blocked: every pending pipeline is rebuilt, then
      every scheduler with pending pipelines is updated, then nothing is
      pending. The rebuilds and updates are returned in the order they are
      made; the iteration order over the map is the solver's choice. */
  method OnRenderLoopBlocked(st: State) returns (built: seq<PipelineRef>, updated: seq<nat>, st': State)
    ensures st' == st.(pending := map[])
    ensures forall p :: p in built <==> p in PendingSet(st.pending)
    ensures Valid(st) ==> forall i, j :: 0 <= i < j < |built| ==> built[i] != built[j]
    ensures forall s :: s in updated <==> s in st.pending
    ensures forall i, j :: 0 <= i < j < |updated| ==> updated[i] != updated[j]
  {
    built := [];
    var todo := st.pending.Keys;
    ghost var done: set<nat> := {};
    while todo != {}
      invariant todo + done == st.pending.Keys && todo !! done
      invariant forall p :: p in built <==> exists s :: s in done && p in st.pending[s]
      invariant Valid(st) ==> forall i, j :: 0 <= i < j < |built| ==> built[i] != built[j]
      invariant Valid(st) ==> forall p :: p in built ==> p.scheduler in done
      decreases todo
    {
      var s :| s in todo;
      var group := st.pending[s];
      var more := BuildGroup(group);
      ghost var before := built;
      built := built + more;
      todo := todo - {s};
      done := done + {s};
      forall p | p in built ensures exists t :: t in done && p in st.pending[t] {
        if p in before {
          var t :| t in done - {s} && p in st.pending[t];
        } else {
          assert s in done && p in st.pending[s];
        }
      }
      forall p | exists t :: t in done && p in st.pending[t] ensures p in built {
        var t :| t in done && p in st.pending[t];
        if t != s {
          assert p in before;
        }
      }
      if Valid(st) {
        forall i, j | 0 <= i < j < |built| ensures built[i] != built[j] {
          if j >= |before| && i < |before| {
            assert built[i] in before && built[j] in more;
            assert built[i].scheduler in done - {s} && built[j].scheduler == s;
          } else if i >= |before| {
            assert built[i] == more[i - |before|] && built[j] == more[j - |before|];
          }
        }
        forall p | p in built ensures p.scheduler in done {
          if p !in before {
            assert p in group;
          }
        }
      }
    }
    forall p ensures p in built <==> p in PendingSet(st.pending) {
      if p in PendingSet(st.pending) {
        var s :| s in st.pending && p in st.pending[s];
        assert s in done;
      }
    }
    updated := SetToSeq(st.pending.Keys);
    st' := st.(pending := map[]);
  }

  /** Rebuilds the pipelines of one scheduler, each once. */
  method BuildGroup(group: set<PipelineRef>) returns (built: seq<PipelineRef>)
    ensures forall p :: p in built <==> p in group
    ensures forall i, j :: 0 <= i < j < |built| ==> built[i] != built[j]
  {
    built := [];
    var todo := group;
    while todo != {}
      invariant todo <= group
      invariant forall p :: p in built <==> p in group - todo
      invariant forall i, j :: 0 <= i < j < |built| ==> built[i] != built[j]
      decreases todo
    {
      var p :| p in todo;
      assert p !in built;
      built := built + [p];
      todo := todo - {p};
    }
  }

  /** Visits the schedulers of the pending map, each once. */
  method SetToSeq(keys: set<nat>) returns (r: seq<nat>)
    ensures forall s :: s in r <==> s in keys
    ensures forall i, j :: 0 <= i < j < |r| ==> r[i] != r[j]
  {
    r := [];
    var todo := keys;
    while todo != {}
      invariant todo <= keys
      invariant forall s :: s in r <==> s in keys - todo
      invariant forall i, j :: 0 <= i < j < |r| ==> r[i] != r[j]
      decreases todo
    {
      var s :| s in todo;
      assert s !in r;
      r := r + [s];
      todo := todo - {s};
    }
  }
}
