/** A snapshot from some time on of every registered thread. */
module RegistrySnapshot {
  import opened Events
  import opened Search
  import opened Ring
  import opened Snapshot
  import opened Registry
  import Bits

  ghost predicate TracesValid(traces: seq<TraceData>)
    reads traces, set t | t in traces :: t.mem
  {
    forall t :: t in traces ==> t.Valid()
  }

  /** The copies, as far as there are any, are what is copied out of the traces' rings. */
  ghost predicate CopiesOf(traces: seq<TraceData>, copies: seq<seq<Entry>>, time: u64, pause: u64)
    reads traces`ring
  {
    && |copies| <= |traces|
    && forall i :: 0 <= i < |copies| ==> CopyOf(traces[i].ring, copies[i], time, pause)
  }

  ghost predicate CopyOf(c: Cells, copy: seq<Entry>, time: u64, pause: u64) {
    0 < |c.cells| && c.cursor <= |c.cells| && copy == Copied(c.cells, c.cursor, time, pause)
  }

  /** Zeroing the masks leaves traces valid. */
  twostate lemma PausedValid(traces: seq<TraceData>)
    requires old(TracesValid(traces))
    requires forall t :: t in traces ==>
               && t.mask == 0 && t.pos == old(t.pos) && t.buf == old(t.buf) && t.bufSize == old(t.bufSize)
               && t.mem == old(t.mem) && t.logSize == old(t.logSize) && t.ring == old(t.ring)
               && t.mem[..] == old(t.mem[..])
    ensures TracesValid(traces)
  {
  }

  /** The loop over the registered traces. */
  method CopyAll(traces: seq<TraceData>, ghost v: seq<Rec>, time: u64, pause: u64)
    returns (copies: Option<seq<seq<Entry>>>)
    requires TracesValid(traces) && Reflects(v, traces)
    ensures copies.Some? <==> AllBuffered(v)
    ensures copies.Some? ==> |copies.value| == |traces| && CopiesOf(traces, copies.value, time, pause)
  {
    hide Copied;
    var out: seq<seq<Entry>> := [];
    while |out| < |traces|
      invariant CopiesOf(traces, out, time, pause)
      invariant forall i :: 0 <= i < |out| ==> v[i].size > 0
      decreases |traces| - |out|
    {
      var t := traces[|out|];
      var copy := SnapshotStartingAt(t, time, pause);
      assert v[|out|] == RecOf(t);
      if copy.None? {
        return None;
      }
      out := out + [copy.value];
    }
    return Some(out);
  }

  /** funtrace_pause_and_get_snapshot_starting_at_time with no thread tracing meanwhile: it succeeds exactly if
  every registered trace has a buffer, and then copies each of them and resumes tracing. */
  method SnapshotAll(state: TraceState, time: u64, pause: u64) returns (copies: Option<seq<seq<Entry>>>)
    requires state.Valid() && TracesValid(state.threadTraces)
    modifies state`tracingPaused, state`view, state.threadTraces`mask
    ensures copies.Some? <==> AllBuffered(old(state.view))
    ensures copies.Some? ==>
              && state.Valid() && !state.tracingPaused
              && |copies.value| == |state.threadTraces| && CopiesOf(state.threadTraces, copies.value, time, pause)
  {
    hide CopyOf;
    ghost var v0 := state.view;
    state.PauseTracing();
    AllMasked(state.view, state.threadTraces, v0);
    PausedValid(state.threadTraces);
    copies := CopyAll(state.threadTraces, state.view, time, pause);
    if copies.Some? {
      state.ResumeTracing();
    }
  }

  lemma AllMasked(v: seq<Rec>, traces: seq<TraceData>, v0: seq<Rec>)
    requires Reflects(v, traces) && v == Remask(v0, true)
    ensures forall t :: t in traces ==> t.mask == 0
    ensures AllBuffered(v) <==> AllBuffered(v0)
  {
    forall t | t in traces ensures t.mask == 0 {
      var i :| 0 <= i < |traces| && traces[i] == t;
      assert v[i] == RecOf(t);
    }
    assert forall i :: 0 <= i < |v| ==> v[i].size == v0[i].size;
  }

  /** Whatever is registered: after one thread whose buffer could not be allocated, or that asked for none, is
  registered, there is no snapshot from a time on any more. */
  method FailedAllocationBreaks(state: TraceState, self: TraceData, thread: u64, logBufSize: nat, time: u64, pause: u64)
    returns (copies: Option<seq<seq<Entry>>>)
    requires state.Valid() && TracesValid(state.threadTraces) && self !in state.threadTraces && thread != 0
    requires logBufSize <= 30
    modifies state, self, state.threadTraces
    ensures copies == None
  {
    Bits.Pow2Less(logBufSize, 64);
    Pow2Of64();
    var inside := state.RegisterThisThread(self, thread, logBufSize, 0);
    copies := SnapshotAll(state, time, pause);
  }
}
