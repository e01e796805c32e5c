/** The registry of thread traces: threads come and go, buffers outlive them until garbage collection, and
a snapshot pauses everything. Buffers are told apart by the array that is their memory. */
module Registry {
  import opened Events
  import opened Search
  import opened Ring
  import Bits

  /** What the registry cares about in an entry; no buffer if its size is zero. */
  datatype Rec = Rec(trace: TraceData, buffer: Option<array<Entry>>, size: u64, mask: u64, thread: u64, death: u64)

  ghost function RecOf(t: TraceData): Rec
    reads t
  {
    Rec(t, if t.bufSize > 0 then Some(t.mem) else None, t.bufSize, t.mask, t.thread, t.timeOfDeathMs)
  }

  /** Entry `i` is replaced by the last one, which is dropped from the end. */
  function SwapRemove<T>(s: seq<T>, i: nat): (r: seq<T>)
    requires i < |s|
    ensures |r| == |s| - 1
    ensures forall j :: 0 <= j < |r| ==> r[j] == s[Origin(|s|, i, j)]
  {
    s[i := s[|s| - 1]][..|s| - 1]
  }

  /** Where the entries left after a swap-remove were before. */
  function Origin(n: nat, i: nat, j: nat): nat
    requires i < n
  {
    if j == i then n - 1 else j
  }

  lemma SwapRemoveSteps<T>(s: seq<T>, i: nat)
    requires i < |s|
    ensures s[i := s[|s| - 1]][..|s| - 1] == SwapRemove(s, i)
  {
  }

  /** The entries before `i`, after it, and the last one. */
  lemma SwapRemoveParts<T>(s: seq<T>, i: nat)
    requires i < |s| - 1
    ensures s == s[..i] + [s[i]] + s[i + 1..|s| - 1] + [s[|s| - 1]]
    ensures SwapRemove(s, i) == s[..i] + [s[|s| - 1]] + s[i + 1..|s| - 1]
  {
  }

  // The invariants, on what is registered.

  ghost predicate Apart(v: seq<Rec>) {
    && (forall i, j :: 0 <= i < j < |v| ==> v[i].trace != v[j].trace)
    && forall i, j :: 0 <= i < j < |v| && v[i].buffer.Some? ==> v[i].buffer != v[j].buffer
  }

  function BufferSet(r: Rec): set<array<Entry>> { if r.buffer.Some? then {r.buffer.value} else {} }

  /** The buffers the entries own. */
  function Buffers(v: seq<Rec>): set<array<Entry>> {
    if v == [] then {} else Buffers(v[..|v| - 1]) + BufferSet(v[|v| - 1])
  }

  /** Every buffer ever issued either has an owner or was given back. */
  ghost predicate Accounted(v: seq<Rec>, issued: set<array<Entry>>, freed: set<array<Entry>>) {
    freed <= issued && Buffers(v) == issued - freed
  }

  lemma {:induction false} BuffersConcat(a: seq<Rec>, b: seq<Rec>)
    ensures Buffers(a + b) == Buffers(a) + Buffers(b)
    decreases |b|
  {
    if b == [] {
      assert a + b == a;
    } else {
      assert (a + b)[..|a + b| - 1] == a + b[..|b| - 1];
      BuffersConcat(a, b[..|b| - 1]);
    }
  }

  lemma BuffersOne(r: Rec)
    ensures Buffers([r]) == BufferSet(r)
  {
    assert [r][..0] == [];
  }

  lemma {:induction false} BuffersApart(v: seq<Rec>, r: Rec)
    requires forall i :: 0 <= i < |v| ==> r.buffer.None? || v[i].buffer != r.buffer
    ensures Buffers(v) !! BufferSet(r)
    decreases |v|
  {
    if v != [] {
      BuffersApart(v[..|v| - 1], r);
    }
  }

  lemma BuffersUpdate(v: seq<Rec>, i: nat, r: Rec)
    requires i < |v| && r.buffer == v[i].buffer
    ensures Buffers(v[i := r]) == Buffers(v)
  {
    var a, b := v[..i], v[i + 1..];
    assert v == a + [v[i]] + b && v[i := r] == a + [r] + b;
    BuffersConcat(a + [v[i]], b);
    BuffersConcat(a, [v[i]]);
    BuffersConcat(a + [r], b);
    BuffersConcat(a, [r]);
    BuffersOne(v[i]);
    BuffersOne(r);
  }

  lemma TakeAway<T>(a: set<T>, b: set<T>, last: set<T>, x: set<T>)
    requires a !! x && b !! x && last !! x
    ensures a + last + b == a + x + b + last - x
  {
  }

  lemma BuffersLast(v: seq<Rec>)
    requires v != []
    ensures Buffers(v) == Buffers(v[..|v| - 1]) + BufferSet(v[|v| - 1])
  {
  }

  lemma SwapLast(v: seq<Rec>)
    requires v != []
    ensures SwapRemove(v, |v| - 1) == v[..|v| - 1]
  {
  }

  lemma BuffersRemove(v: seq<Rec>, i: nat)
    requires i < |v| && Apart(v)
    ensures Buffers(SwapRemove(v, i)) == Buffers(v) - BufferSet(v[i])
  {
    hide Buffers, SwapRemove;
    var n := |v|;
    if i < n - 1 {
      var a, b := v[..i], v[i + 1..n - 1];
      SwapRemoveParts(v, i);
      BuffersConcat(a + [v[i]] + b, [v[n - 1]]);
      BuffersConcat(a + [v[i]], b);
      BuffersConcat(a, [v[i]]);
      BuffersConcat(a + [v[n - 1]], b);
      BuffersConcat(a, [v[n - 1]]);
      BuffersOne(v[i]);
      BuffersOne(v[n - 1]);
      BuffersApart(a, v[i]);
      BuffersApart(b, v[i]);
      TakeAway(Buffers(a), Buffers(b), BufferSet(v[n - 1]), BufferSet(v[i]));
    } else {
      BuffersLast(v);
      SwapLast(v);
      BuffersApart(v[..n - 1], v[i]);
    }
  }

  /** Masks follow the pause flag wherever there is a buffer. */
  ghost predicate MasksFollow(v: seq<Rec>, paused: bool) {
    forall i :: 0 <= i < |v| ==>
      if paused then v[i].mask == 0 else v[i].size > 0 ==> v[i].mask == ALL_ONES - v[i].size
  }

  ghost predicate Consistent(v: seq<Rec>, paused: bool, issued: set<array<Entry>>, freed: set<array<Entry>>) {
    Apart(v) && Accounted(v, issued, freed) && MasksFollow(v, paused)
  }

  lemma ConsistentApart(v: seq<Rec>, paused: bool, issued: set<array<Entry>>, freed: set<array<Entry>>)
    requires Consistent(v, paused, issued, freed)
    ensures Apart(v)
  {
  }

  lemma AddKeeps(v: seq<Rec>, paused: bool, issued: set<array<Entry>>, freed: set<array<Entry>>, r: Rec)
    requires Consistent(v, paused, issued, freed)
    requires forall i :: 0 <= i < |v| ==> v[i].trace != r.trace
    requires BufferSet(r) !! issued
    requires MasksFollow([r], paused)
    ensures Consistent(v + [r], paused, issued + BufferSet(r), freed)
  {
    assert [r][0] == r;
    BuffersConcat(v, [r]);
    BuffersOne(r);
    forall i | 0 <= i < |v| && v[i].buffer.Some? ensures v[i].buffer != r.buffer {
      BuffersHas(v, i);
    }
  }

  lemma {:induction false} BuffersHas(v: seq<Rec>, i: nat)
    requires i < |v|
    ensures BufferSet(v[i]) <= Buffers(v)
    decreases |v|
  {
    if i < |v| - 1 {
      BuffersHas(v[..|v| - 1], i);
    }
  }

  /** Dropping an entry and giving its buffer back. */
  lemma RemoveKeeps(v: seq<Rec>, paused: bool, issued: set<array<Entry>>, freed: set<array<Entry>>, i: nat)
    requires Consistent(v, paused, issued, freed) && i < |v|
    ensures Consistent(SwapRemove(v, i), paused, issued, freed + BufferSet(v[i]))
  {
    var n, w := |v|, SwapRemove(v, i);
    forall j | 0 <= j < |w| ensures w[j] == v[Origin(n, i, j)] && Origin(n, i, j) != i {
    }
    BuffersRemove(v, i);
    BuffersHas(v, i);
  }

  /** Handing an entry's buffer over to another object. */
  lemma ReplaceKeeps(v: seq<Rec>, paused: bool, issued: set<array<Entry>>, freed: set<array<Entry>>, i: nat, r: Rec)
    requires Consistent(v, paused, issued, freed) && i < |v|
    requires forall j :: 0 <= j < |v| ==> v[j].trace != r.trace
    requires r.buffer == v[i].buffer && r.size == v[i].size && r.mask == v[i].mask
    ensures Consistent(v[i := r], paused, issued, freed)
  {
    BuffersUpdate(v, i, r);
  }

  /** The same entries with masks set for `paused`. */
  function Remask(v: seq<Rec>, paused: bool): (w: seq<Rec>)
    ensures |w| == |v|
    ensures forall i :: 0 <= i < |v| ==> w[i] == v[i].(mask := if paused then 0 else ALL_ONES - v[i].size)
  {
    seq(|v|, i requires 0 <= i < |v| => v[i].(mask := if paused then 0 else ALL_ONES - v[i].size))
  }

  lemma RemaskTwice(v: seq<Rec>, paused: bool, again: bool)
    ensures Remask(Remask(v, paused), again) == Remask(v, again)
  {
  }

  lemma RemaskKeeps(v: seq<Rec>, was: bool, paused: bool, issued: set<array<Entry>>, freed: set<array<Entry>>)
    requires Consistent(v, was, issued, freed)
    ensures Consistent(Remask(v, paused), paused, issued, freed)
  {
    SameBuffers(v, Remask(v, paused));
  }

  lemma {:induction false} SameBuffers(v: seq<Rec>, w: seq<Rec>)
    requires |v| == |w| && forall i :: 0 <= i < |v| ==> v[i].buffer == w[i].buffer
    ensures Buffers(v) == Buffers(w)
    decreases |v|
  {
    if v != [] {
      SameBuffers(v[..|v| - 1], w[..|w| - 1]);
    }
  }

  /** Every registered trace has a buffer. */
  predicate AllBuffered(v: seq<Rec>) { forall i :: 0 <= i < |v| ==> v[i].size > 0 }

  lemma BufferedMore(v: seq<Rec>, r: Rec)
    ensures AllBuffered(v + [r]) <==> AllBuffered(v) && r.size > 0
  {
    if AllBuffered(v + [r]) {
      assert forall i :: 0 <= i < |v| ==> v[i] == (v + [r])[i];
      assert (v + [r])[|v|].size > 0;
    }
  }

  // Garbage.

  /** A finished thread's trace that is old enough, or any when the program is exiting. */
  predicate Garbage(r: Rec, exiting: bool, maxAge: nat, now: u64) {
    r.thread == 0 && (exiting || r.death + maxAge <= now)
  }

  ghost function KeptBy(v: seq<Rec>, exiting: bool, maxAge: nat, now: u64): multiset<Rec> {
    if v == [] then multiset{}
    else
      var r := v[|v| - 1];
      KeptBy(v[..|v| - 1], exiting, maxAge, now)
      + if Garbage(r, exiting, maxAge, now) then multiset{} else multiset{r}
  }

  lemma {:induction false} KeptConcat(a: seq<Rec>, b: seq<Rec>, exiting: bool, maxAge: nat, now: u64)
    ensures KeptBy(a + b, exiting, maxAge, now) == KeptBy(a, exiting, maxAge, now) + KeptBy(b, exiting, maxAge, now)
    decreases |b|
  {
    if b == [] {
      assert a + b == a;
    } else {
      assert (a + b)[..|a + b| - 1] == a + b[..|b| - 1];
      KeptConcat(a, b[..|b| - 1], exiting, maxAge, now);
    }
  }

  lemma KeptOne(r: Rec, exiting: bool, maxAge: nat, now: u64)
    ensures KeptBy([r], exiting, maxAge, now) == if Garbage(r, exiting, maxAge, now) then multiset{} else multiset{r}
  {
    assert [r][..0] == [];
  }

  lemma {:induction false} AllKept(v: seq<Rec>, exiting: bool, maxAge: nat, now: u64)
    requires forall i :: 0 <= i < |v| ==> !Garbage(v[i], exiting, maxAge, now)
    ensures KeptBy(v, exiting, maxAge, now) == multiset(v)
    decreases |v|
  {
    if v != [] {
      AllKept(v[..|v| - 1], exiting, maxAge, now);
      assert v == v[..|v| - 1] + [v[|v| - 1]];
    }
  }

  /** Collecting an entry leaves the same ones to keep. */
  lemma CollectOne(v: seq<Rec>, i: nat, exiting: bool, maxAge: nat, now: u64)
    requires i < |v| && Garbage(v[i], exiting, maxAge, now)
    ensures KeptBy(SwapRemove(v, i), exiting, maxAge, now) == KeptBy(v, exiting, maxAge, now)
  {
    var n := |v|;
    if i < n - 1 {
      var a, b := v[..i], v[i + 1..n - 1];
      SwapRemoveParts(v, i);
      KeptConcat(a + [v[i]] + b, [v[n - 1]], exiting, maxAge, now);
      KeptConcat(a + [v[i]], b, exiting, maxAge, now);
      KeptConcat(a, [v[i]], exiting, maxAge, now);
      KeptConcat(a + [v[n - 1]], b, exiting, maxAge, now);
      KeptConcat(a, [v[n - 1]], exiting, maxAge, now);
      KeptOne(v[i], exiting, maxAge, now);
    } else {
      assert SwapRemove(v, i) == v[..n - 1];
    }
  }

  lemma {:induction false} KeptExactly(v: seq<Rec>, r: Rec, exiting: bool, maxAge: nat, now: u64)
    ensures r in KeptBy(v, exiting, maxAge, now) <==> r in v && !Garbage(r, exiting, maxAge, now)
    decreases |v|
  {
    if v != [] {
      KeptExactly(v[..|v| - 1], r, exiting, maxAge, now);
      assert v == v[..|v| - 1] + [v[|v| - 1]];
    }
  }

  lemma {:induction false} BuffersMember(v: seq<Rec>, b: array<Entry>)
    ensures b in Buffers(v) <==> exists i :: 0 <= i < |v| && v[i].buffer == Some(b)
    decreases |v|
  {
    if v != [] {
      var m := |v| - 1;
      BuffersMember(v[..m], b);
      if exists i :: 0 <= i < m && v[..m][i].buffer == Some(b) {
        var i :| 0 <= i < m && v[..m][i].buffer == Some(b);
        assert v[i].buffer == Some(b);
      }
      assert forall i :: 0 <= i < m ==> v[i] == v[..m][i];
    }
  }

  /** After collection the buffer of an entry has been given back exactly if the entry was garbage. */
  lemma FreedExactly(v: seq<Rec>, w: seq<Rec>, issued: set<array<Entry>>, freed: set<array<Entry>>, i: nat,
                     exiting: bool, maxAge: nat, now: u64)
    requires i < |v| && Apart(v) && v[i].buffer.Some? && v[i].buffer.value in issued
    requires Accounted(w, issued, freed) && multiset(w) == KeptBy(v, exiting, maxAge, now)
    ensures v[i].buffer.value in freed <==> Garbage(v[i], exiting, maxAge, now)
  {
    hide KeptBy, Garbage;
    var b := v[i].buffer.value;
    BuffersMember(w, b);
    KeptExactly(v, v[i], exiting, maxAge, now);
    if !Garbage(v[i], exiting, maxAge, now) {
      assert v[i] in multiset(w);
    }
    forall j | 0 <= j < |w| && w[j].buffer == Some(b) ensures !Garbage(v[i], exiting, maxAge, now) {
      assert w[j] in multiset(w);
      KeptExactly(v, w[j], exiting, maxAge, now);
    }
  }

  lemma NoneFreed(v: seq<Rec>, paused: bool, issued: set<array<Entry>>, freed: set<array<Entry>>)
    requires Consistent(v, paused, issued, freed)
    ensures forall r :: r in v && r.buffer.Some? ==> r.buffer.value !in freed && r.buffer.value in issued
  {
    forall r | r in v && r.buffer.Some? ensures r.buffer.value !in freed && r.buffer.value in issued {
      var i :| 0 <= i < |v| && v[i] == r;
      BuffersHas(v, i);
    }
  }

  /** A live thread's trace stays, with its buffer, whatever its time of death says. A finished one's is gone, with its
  buffer given back, exactly if it is old enough or the program exits. */
  lemma CollectedExactly(v: seq<Rec>, w: seq<Rec>, paused: bool, issued: set<array<Entry>>, freed0: set<array<Entry>>,
                         freed: set<array<Entry>>, exiting: bool, maxAge: nat, now: u64)
    requires Consistent(v, paused, issued, freed0) && Consistent(w, paused, issued, freed)
    requires multiset(w) == KeptBy(v, exiting, maxAge, now)
    ensures forall r :: r in v && r.thread != 0 ==> r in w
    ensures forall r :: r in v && r.thread == 0 ==> (r in w <==> !exiting && now < r.death + maxAge)
    ensures forall r :: r in v && r.buffer.Some? ==> (r.buffer.value in freed <==> r !in w)
  {
    hide KeptBy;
    NoneFreed(v, paused, issued, freed0);
    forall r | r in v
      ensures r in w <==> !Garbage(r, exiting, maxAge, now)
      ensures r.buffer.Some? ==> (r.buffer.value in freed <==> r !in w)
    {
      KeptExactly(v, r, exiting, maxAge, now);
      assert r in w <==> r in multiset(w);
      var i :| 0 <= i < |v| && v[i] == r;
      if r.buffer.Some? {
        FreedExactly(v, w, issued, freed, i, exiting, maxAge, now);
      }
    }
  }

  ghost predicate Reflects(v: seq<Rec>, traces: seq<TraceData>)
    reads traces
  {
    |v| == |traces| && forall i :: 0 <= i < |v| ==> v[i] == RecOf(traces[i])
  }

  lemma OnlyOnce(v: seq<Rec>, traces: seq<TraceData>, i: nat)
    requires Apart(v) && Reflects(v, traces) && i < |v|
    ensures forall j :: 0 <= j < |v| && j != i ==> traces[j] != traces[i]
  {
    forall j | 0 <= j < |v| && j != i ensures traces[j] != traces[i] {
      assert v[if i < j then i else j].trace != v[if i < j then j else i].trace;
    }
  }

  /** Two objects for one buffer, at the same place in it. */
  ghost predicate SameBuffer(a: TraceData, b: TraceData)
    reads a, b
  {
    a.mem == b.mem && a.buf == b.buf && a.bufSize == b.bufSize && a.pos == b.pos && a.mask == b.mask && a.ring == b.ring
  }

  class TraceState {
    var threadTraces: seq<TraceData>
    var tracingPaused: bool
    var exiting: bool
    const gcMaxAgeMs: nat
    ghost var view: seq<Rec>              // the entries
    ghost var issued: set<array<Entry>>   // buffers ever allocated for a registered trace
    ghost var freed: set<array<Entry>>    // buffers given back

    ghost predicate Valid()
      reads this, threadTraces
    {
      Reflects(view, threadTraces) && Consistent(view, tracingPaused, issued, freed)
    }

    constructor (gcMaxAgeMs: nat)
      ensures Valid() && view == [] && !tracingPaused && !exiting && issued == {} && freed == {}
      ensures this.gcMaxAgeMs == gcMaxAgeMs
    {
      this.gcMaxAgeMs := gcMaxAgeMs;
      threadTraces, tracingPaused, exiting, view, issued, freed := [], false, false, [], {}, {};
    }

    method PauseTracing()
      requires Valid()
      modifies this`tracingPaused, this`view, threadTraces`mask
      ensures Valid() && tracingPaused && view == Remask(old(view), true)
    {
      tracingPaused := true;
      PauseAll(threadTraces, view);
      RemaskKeeps(view, old(tracingPaused), true, issued, freed);
      view := Remask(view, true);
    }

    method ResumeTracing()
      requires Valid()
      modifies this`tracingPaused, this`view, threadTraces`mask
      ensures Valid() && !tracingPaused && view == Remask(old(view), false)
    {
      tracingPaused := false;
      ResumeAll(threadTraces, view);
      RemaskKeeps(view, old(tracingPaused), false, issued, freed);
      view := Remask(view, false);
    }

    /** Must not be called again before the thread is unregistered. A thread that starts while tracing is
    paused starts paused. */
    method RegisterThisThread(self: TraceData, thread: u64, logBufSize: nat, address: u64) returns (inside: bool)
      requires Valid() && self !in threadTraces && thread != 0
      requires logBufSize <= 30
      requires address % (2 * Bits.Pow2(logBufSize)) == 0 && address + Bits.Pow2(logBufSize) < TWO_64
      modifies this`threadTraces, this`view, this`issued, self
      ensures Valid() && (inside <==> !TooSmall(logBufSize, address))
      ensures inside ==> threadTraces == old(threadTraces) + [self] && view == old(view) + [RecOf(self)]
      ensures inside ==> self.Valid() && self.thread == thread && fresh(self.mem)
      ensures inside ==> self.bufSize == if logBufSize > 0 && address > 0 then Bits.Pow2(logBufSize) else 0
      ensures inside ==> self.mask == if tracingPaused || self.bufSize == 0 then 0 else ALL_ONES - self.bufSize
      ensures inside ==> (AllBuffered(view) <==> AllBuffered(old(view)) && logBufSize > 0 && address > 0)
    {
      hide Consistent, AllBuffered;
      inside := BeginTrace(self, thread, logBufSize, address, tracingPaused);
      if !inside {
        return;
      }
      BufferedMore(view, RecOf(self));
      AddKeeps(view, tracingPaused, issued, freed, RecOf(self));
      issued := issued + BufferSet(RecOf(self));
      view := view + [RecOf(self)];
      threadTraces := threadTraces + [self];
    }

    /** Whatever the thread traced goes away with it, or is kept until it is old enough to be collected. */
    method UnregisterThisThread(self: TraceData, deferFree: bool, now: u64)
      requires Valid()
      modifies this`threadTraces, this`view, this`freed, self
      ensures Valid() && self !in threadTraces
      ensures self !in old(threadTraces) ==> view == old(view) && freed == old(freed)
      ensures forall i :: 0 <= i < |old(threadTraces)| && old(threadTraces)[i] == self ==>
                var r := old(view)[i];
                if gcMaxAgeMs == 0 || !deferFree || exiting then
                  && view == SwapRemove(old(view), i) && freed == old(freed) + BufferSet(r)
                  && self.Valid() && self.bufSize == 0 && self.mask == 0 && fresh(self.mem)
                else
                  && |view| == |old(view)| && view[i].trace != self && freed == old(freed)
                  && view == old(view)[i := r.(trace := view[i].trace, thread := 0, death := now)]
                  && threadTraces == old(threadTraces)[i := view[i].trace] && fresh(view[i].trace)
                  && SameBuffer(view[i].trace, self) && unchanged(self)
    {
      var i := 0;
      while i < |threadTraces| && threadTraces[i] != self
        invariant 0 <= i <= |threadTraces|
        invariant forall j :: 0 <= j < i ==> threadTraces[j] != self
        modifies {}
      {
        i := i + 1;
      }
      if i < |threadTraces| {
        OnlyOnce(view, threadTraces, i);
        if gcMaxAgeMs == 0 || !deferFree || exiting {
          RemoveAt(i);
        } else {
          HandOver(i, now);
        }
      }
    }

    /** Gives back the buffer of an entry and drops the entry, whose object is left without buffer and mask. */
    method RemoveAt(i: nat)
      requires Valid() && i < |threadTraces|
      modifies this`threadTraces, this`view, this`freed, threadTraces[i]
      ensures Valid()
      ensures view == SwapRemove(old(view), i) && threadTraces == SwapRemove(old(threadTraces), i)
      ensures freed == old(freed) + BufferSet(old(view)[i])
      ensures var t := old(threadTraces)[i]; t.Valid() && t.bufSize == 0 && t.mask == 0 && fresh(t.mem)
    {
      hide Consistent, SwapRemove;
      ConsistentApart(view, tracingPaused, issued, freed);
      FreeOne(threadTraces, i, view);
      SwapRemoveSteps(threadTraces, i);
      threadTraces := threadTraces[i := threadTraces[|threadTraces| - 1]];
      threadTraces := threadTraces[..|threadTraces| - 1];
      RemoveKeeps(view, tracingPaused, issued, freed, i);
      freed := freed + BufferSet(view[i]);
      view := SwapRemove(view, i);
    }

    /** Replaces an entry by a copy of it that outlives the thread. */
    method HandOver(i: nat, now: u64)
      requires Valid() && i < |threadTraces|
      modifies this`threadTraces, this`view
      ensures Valid() && |threadTraces| == |old(threadTraces)| && fresh(threadTraces[i])
      ensures threadTraces == old(threadTraces)[i := threadTraces[i]]
      ensures view == old(view)[i := old(view)[i].(trace := threadTraces[i], thread := 0, death := now)]
      ensures SameBuffer(threadTraces[i], old(threadTraces)[i]) && unchanged(old(threadTraces)[i])
      ensures threadTraces[i].pos == old(threadTraces[i].pos) && threadTraces[i].ring == old(threadTraces[i].ring)
    {
      var copy := new TraceData.Copy(threadTraces[i]);
      copy.thread := 0;
      copy.timeOfDeathMs := now;
      threadTraces := threadTraces[i := copy];
      ReplaceKeeps(view, tracingPaused, issued, freed, i, RecOf(copy));
      view := view[i := RecOf(copy)];
    }

    /** Collects exactly the traces of finished threads that are old enough, all of them when exiting. */
    method CollectGarbage(exitingProgram: bool, now: u64)
      requires Valid()
      modifies this`threadTraces, this`view, this`freed, this`exiting, threadTraces
      ensures Valid()
      ensures exiting == (old(exiting) || (exitingProgram && gcMaxAgeMs > 0))
      ensures forall t :: t in threadTraces ==> t in old(threadTraces)
      ensures multiset(view) == if gcMaxAgeMs == 0 then multiset(old(view))
                                else KeptBy(old(view), exiting, gcMaxAgeMs, now)
      ensures forall r :: r in old(view) && r.thread != 0 ==> r in view
      ensures forall r :: r in old(view) && r.thread == 0 ==>
                (r in view <==> gcMaxAgeMs == 0 || (!exiting && now < r.death + gcMaxAgeMs))
      ensures forall r :: r in old(view) && r.buffer.Some? ==> (r.buffer.value in freed <==> r !in view)
    {
      hide KeptBy, Consistent, Garbage;
      if gcMaxAgeMs == 0 {
        NoneFreed(view, tracingPaused, issued, freed);
        return;
      }
      if exitingProgram {
        exiting := true;
      }
      ghost var all := set t | t in threadTraces;
      var i := 0;
      while i < |threadTraces|
        invariant 0 <= i <= |threadTraces| && Valid()
        invariant forall j :: 0 <= j < |threadTraces| ==> threadTraces[j] in all
        invariant Collecting(view, old(view), exiting, gcMaxAgeMs, now, i)
        modifies this`threadTraces, this`view, this`freed, all
        decreases |threadTraces| - i
      {
        i := CollectEntry(i, now, old(view));
      }
      AllKept(view, exiting, gcMaxAgeMs, now);
      CollectedExactly(old(view), view, old(tracingPaused), issued, old(freed), freed, exiting, gcMaxAgeMs, now);
    }

    /** One turn of the collection loop. */
    method CollectEntry(i: nat, now: u64, ghost v0: seq<Rec>) returns (next: nat)
      requires Valid() && i < |threadTraces| && Collecting(view, v0, exiting, gcMaxAgeMs, now, i)
      modifies this`threadTraces, this`view, this`freed, threadTraces[i]
      ensures Valid() && next <= |threadTraces| && |threadTraces| - next == |old(threadTraces)| - i - 1
      ensures Collecting(view, v0, exiting, gcMaxAgeMs, now, next)
      ensures threadTraces == if next == i then SwapRemove(old(threadTraces), i) else old(threadTraces)
    {
      var live := threadTraces[i].thread != 0;
      var recent := !exiting && threadTraces[i].timeOfDeathMs + gcMaxAgeMs > now;
      assert view[i] == RecOf(threadTraces[i]);
      if live || recent {
        next := i + 1;
      } else {
        CollectStep(view, v0, exiting, gcMaxAgeMs, now, i);
        RemoveAt(i);
        next := i;
      }
    }

    /** Pausing and resuming around a snapshot: whatever the flag was, tracing is on afterwards. */
    method SnapshotPause()
      requires Valid()
      modifies this`tracingPaused, this`view, threadTraces`mask
      ensures Valid() && !tracingPaused && view == Remask(old(view), false)
    {
      PauseTracing();
      ResumeTracing();
      RemaskTwice(old(view), true, false);
    }
  }

  /** The object of an exiting thread keeps buffer and mask, which a copy takes over in the registry. */
  predicate HandedOver(gcMaxAgeMs: nat, deferFree: bool, exiting: bool) { gcMaxAgeMs > 0 && deferFree && !exiting }

  /** A thread exits, and everything is paused. */
  method ExitAndPause(state: TraceState, self: TraceData, deferFree: bool, now: u64) returns (ghost i: nat)
    requires state.Valid() && self in state.threadTraces && self.Valid()
    modifies state, state.threadTraces
    ensures state.tracingPaused && self !in state.threadTraces && self.Valid()
    ensures if HandedOver(state.gcMaxAgeMs, deferFree, old(state.exiting)) then
              && unchanged(self)
              && i < |state.view| && state.view[i].buffer == RecOf(self).buffer && state.view[i].mask == 0
            else self.bufSize == 0 && self.mask == 0 && fresh(self.mem)
  {
    hide Consistent;
    i :| 0 <= i < |state.threadTraces| && state.threadTraces[i] == self;
    assert state.view[i] == RecOf(self);
    state.UnregisterThisThread(self, deferFree, now);
    state.PauseTracing();
  }

  /** What a thread still traces after it has exited and everything was paused lands in a buffer exactly if it was
  handed over with a buffer and a mask, and then in one that the registry owns and has paused. */
  method ExitedWrites(state: TraceState, self: TraceData, deferFree: bool, now: u64, word: u64, cycle: u64)
    returns (ghost i: nat)
    requires state.Valid() && self in state.threadTraces && self.Valid() && ClockAfter(self.Log(), cycle)
    modifies state, state.threadTraces, self.mem
    ensures state.tracingPaused && self !in state.threadTraces
    ensures old(self.mask) != 0 && old(self.bufSize) > 0 && HandedOver(state.gcMaxAgeMs, deferFree, old(state.exiting))
       <==> self.Log() == old(self.Log()) + [Entry(word, cycle)]
    ensures if HandedOver(state.gcMaxAgeMs, deferFree, old(state.exiting)) then
              && self.mem == old(self.mem) && self.mask == old(self.mask) && self.bufSize == old(self.bufSize)
              && i < |state.view| && state.view[i].buffer == RecOf(self).buffer && state.view[i].mask == 0
            else self.bufSize == 0 && self.mask == 0
  {
    hide TraceState.Valid;
    i := ExitAndPause(state, self, deferFree, now);
    NoRingNoLog(self);
    self.Trace(word, cycle);
  }

  lemma NoRingNoLog(t: TraceData)
    requires t.Valid()
    ensures t.bufSize == 0 ==> t.Log() == []
  {
  }

  /** Collection gives back the buffer of an exited thread once the thread has been dead long enough, or when the
  program exits. The thread's own object does not notice. */
  method CollectedUnderExited(state: TraceState, self: TraceData, now: u64, exitingProgram: bool, later: u64)
    requires state.Valid() && self in state.threadTraces && self.bufSize > 0
    requires state.gcMaxAgeMs > 0 && !state.exiting
    modifies state, state.threadTraces
    ensures unchanged(self) && self !in state.threadTraces
    ensures self.mem in state.freed <==> exitingProgram || now + state.gcMaxAgeMs <= later
  {
    hide KeptBy;
    ghost var i: nat :| 0 <= i < |state.threadTraces| && state.threadTraces[i] == self;
    assert state.view[i] == RecOf(self);
    state.UnregisterThisThread(self, true, now);
    ghost var v := state.view;
    BuffersHas(v, i);
    state.CollectGarbage(exitingProgram, later);
    FreedExactly(v, state.view, state.issued, state.freed, i, state.exiting, state.gcMaxAgeMs, later);
  }

  /** Entries before `i` stay, and what is to be kept is what was to be kept at first. */
  ghost predicate Collecting(v: seq<Rec>, v0: seq<Rec>, exiting: bool, maxAge: nat, now: u64, i: nat) {
    && i <= |v|
    && (forall j :: 0 <= j < i ==> !Garbage(v[j], exiting, maxAge, now))
    && KeptBy(v, exiting, maxAge, now) == KeptBy(v0, exiting, maxAge, now)
  }

  lemma CollectStep(v: seq<Rec>, v0: seq<Rec>, exiting: bool, maxAge: nat, now: u64, i: nat)
    requires i < |v| && Garbage(v[i], exiting, maxAge, now) && Collecting(v, v0, exiting, maxAge, now, i)
    ensures Collecting(SwapRemove(v, i), v0, exiting, maxAge, now, i)
  {
    CollectOne(v, i, exiting, maxAge, now);
  }

  /** What a thread's own trace object goes through when it registers. */
  method BeginTrace(self: TraceData, thread: u64, logBufSize: nat, address: u64, paused: bool) returns (inside: bool)
    requires logBufSize <= 30
    requires address % (2 * Bits.Pow2(logBufSize)) == 0 && address + Bits.Pow2(logBufSize) < TWO_64
    modifies self
    ensures inside <==> !TooSmall(logBufSize, address)
    ensures inside ==> self.Valid() && self.thread == thread && fresh(self.mem)
    ensures inside ==> self.bufSize == if logBufSize > 0 && address > 0 then Bits.Pow2(logBufSize) else 0
    ensures inside ==> MasksFollow([RecOf(self)], paused)
    ensures inside ==> self.mask == if paused || self.bufSize == 0 then 0 else ALL_ONES - self.bufSize
  {
    inside := self.Allocate(logBufSize, address);
    if !inside {
      return;
    }
    if paused {
      self.PauseTracing();
    }
    self.thread := thread;
  }

  method PauseAll(traces: seq<TraceData>, ghost v: seq<Rec>)
    requires Reflects(v, traces)
    modifies traces`mask
    ensures Reflects(Remask(v, true), traces)
  {
    for i := 0 to |traces|
      invariant forall j :: 0 <= j < i ==> traces[j].mask == 0
    {
      traces[i].mask := 0;
    }
  }

  method ResumeAll(traces: seq<TraceData>, ghost v: seq<Rec>)
    requires Reflects(v, traces)
    modifies traces`mask
    ensures Reflects(Remask(v, false), traces)
  {
    for i := 0 to |traces|
      invariant forall j :: 0 <= j < i ==> traces[j].mask == ALL_ONES - traces[j].bufSize
    {
      traces[i].mask := ALL_ONES - traces[i].bufSize;
    }
  }

  /** Giving back the buffer of one trace leaves the others alone. */
  method FreeOne(traces: seq<TraceData>, i: nat, ghost v: seq<Rec>)
    requires Apart(v) && Reflects(v, traces) && i < |traces|
    modifies traces[i]
    ensures Reflects(SwapRemove(v, i), SwapRemove(traces, i))
    ensures traces[i].Valid() && traces[i].bufSize == 0 && traces[i].mask == 0 && fresh(traces[i].mem)
  {
    OnlyOnce(v, traces, i);
    traces[i].Free();
  }
}
