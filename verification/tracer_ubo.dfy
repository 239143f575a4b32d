/** The per-frame uniform data the tracer writes: the sample counter and the
    previous frame's view-projection matrix, both kept across calls. The
    matrix type is a parameter, since only its identity and the order of
    the matrices matter here. */
module TracerUbo {

  /** The counter is a 32-bit unsigned integer: it wraps after 2^32 frames. */
  const SampleModulus: nat := 0x1_0000_0000

  /** The part of the render information that comes from the counters. */
  datatype RenderInfo<M> = RenderInfo(thisMvpe: M, lastMvpe: M, currentSample: nat)

  /** The state kept between calls. */
  datatype UboState<M> = UboState(currentSample: nat, lastMvpe: M)

  /** Before the first call the counter is 0 and the previous matrix is the
      identity. */
  function InitialState<M>(identity: M): UboState<M> {
    UboState(0, identity)
  }

  /** One call: the render information carries this frame's matrix, the
      previous one and the counter; afterwards the matrix is remembered and
      the counter advances with 32-bit wrap-around. */
  function UpdateUboData<M>(st: UboState<M>, thisMvpe: M): (r: (RenderInfo<M>, UboState<M>))
    requires st.currentSample < SampleModulus
    ensures r.0.thisMvpe == thisMvpe && r.0.lastMvpe == st.lastMvpe && r.0.currentSample == st.currentSample
    ensures r.1.lastMvpe == thisMvpe && r.1.currentSample < SampleModulus
    ensures r.1.currentSample == if st.currentSample == SampleModulus - 1 then 0 else st.currentSample + 1
  {
    (RenderInfo(thisMvpe, st.lastMvpe, st.currentSample), UboState((st.currentSample + 1) % SampleModulus, thisMvpe))
  }

  /** A run of calls, one per frame, with the given matrices: the render
      information of each call and the state after the last. */
  function Run<M>(identity: M, ms: seq<M>): (r: (seq<RenderInfo<M>>, UboState<M>))
    ensures |r.0| == |ms| && r.1.currentSample < SampleModulus
    decreases |ms|
  {
    if ms == [] then ([], InitialState(identity))
    else
      var prev := Run(identity, ms[..|ms| - 1]);
      var step := UpdateUboData(prev.1, ms[|ms| - 1]);
      (prev.0 + [step.0], step.1)
  }

  /** Call k of a run sees the counter k (modulo 2^32), its own matrix, and
      the matrix of call k - 1, or the identity at the first call. */
  ghost predicate SeesHistory<M>(identity: M, ms: seq<M>, infos: seq<RenderInfo<M>>, k: nat)
    requires k < |ms| && k < |infos|
  {
    infos[k].currentSample == k % SampleModulus &&
    infos[k].thisMvpe == ms[k] &&
    infos[k].lastMvpe == (if k == 0 then identity else ms[k - 1])
  }

  lemma {:induction false} RunHistory<M>(identity: M, ms: seq<M>)
    ensures var r := Run(identity, ms);
      (forall k :: 0 <= k < |ms| ==> SeesHistory(identity, ms, r.0, k)) &&
      r.1.currentSample == |ms| % SampleModulus &&
      r.1.lastMvpe == (if ms == [] then identity else ms[|ms| - 1])
    decreases |ms|
  {
    if ms != [] {
      var init := ms[..|ms| - 1];
      var prev := Run(identity, init);
      var r := Run(identity, ms);
      RunHistory(identity, init);
      assert r.0 == prev.0 + [UpdateUboData(prev.1, ms[|ms| - 1]).0];
      forall k | 0 <= k < |ms| ensures SeesHistory(identity, ms, r.0, k) {
        if k < |init| {
          assert SeesHistory(identity, init, prev.0, k);
          assert r.0[k] == prev.0[k];
        } else {
          assert init != [] ==> init[|init| - 1] == ms[k - 1];
        }
      }
    }
  }
}
