/** Pausing while threads trace. A writer loads its position and mask once, stores the two words of an
entry, then advances its position; the snapshotter zeroes the masks one by one, copies the buffers cell by
cell, and restores the masks. Steps interleave in any order; memory is assumed sequentially consistent
(the fields are plain in C++). */
module PauseProtocol {
  import opened Events
  import opened Ring

  /** Between its load and the store of the new position a writer owns one slot. */
  datatype PC = Idle | Loaded(slot: nat, e: Entry) | Half(slot: nat, e: Entry) | Stored(slot: nat, e: Entry)

  /** `mem` is the memory; `ring` is what has been committed by advancing the position. `cycleFirst` tells
  the return hook, which stores the cycle before the address, from the others. */
  datatype Writer = Writer(mem: seq<Entry>, ring: Cells, enabled: bool, pc: PC, cycleFirst: bool)

  datatype Phase = Running | Pausing | Copying | Resuming

  /** `next` is the buffer the phase is at; `frozen` is what was committed in each buffer when its mask was
  zeroed. */
  datatype System = System(
    writers: seq<Writer>,
    phase: Phase,
    next: nat,
    frozen: seq<Cells>,
    copies: seq<seq<Entry>>)

  datatype Step =
    | Begin(w: nat, e: Entry)   // the single load of position and mask
    | StoreFirst(w: nat)
    | StoreSecond(w: nat)
    | Commit(w: nat)
    | StartPause
    | PauseNext
    | CopyCell
    | CopyNext
    | ResumeNext

  predicate CanWrite(s: System, step: Step) {
    match step
    case Begin(w, e) => w < |s.writers| && s.writers[w].pc == Idle
    case StoreFirst(w) => w < |s.writers| && s.writers[w].pc.Loaded?
    case StoreSecond(w) => w < |s.writers| && s.writers[w].pc.Half?
    case Commit(w) => w < |s.writers| && s.writers[w].pc.Stored?
    case _ => false
  }

  function FirstWord(w: Writer, was: Entry, e: Entry): Entry {
    if w.cycleFirst then Entry(was.address, e.cycle) else Entry(e.address, was.cycle)
  }

  /** A writer's step; storing to a slot outside the buffer cannot happen, and is left undefined here. */
  function Write(w: Writer, step: Step): Writer {
    match step
    case Begin(_, e) => if w.enabled then w.(pc := Loaded(w.ring.Slot(), e)) else w
    case StoreFirst(_) =>
      if w.pc.Loaded? && w.pc.slot < |w.mem| then
        w.(mem := w.mem[w.pc.slot := FirstWord(w, w.mem[w.pc.slot], w.pc.e)], pc := Half(w.pc.slot, w.pc.e))
      else w
    case StoreSecond(_) =>
      if w.pc.Half? && w.pc.slot < |w.mem| then
        w.(mem := w.mem[w.pc.slot := w.pc.e], pc := Stored(w.pc.slot, w.pc.e))
      else w
    case Commit(_) =>
      if w.pc.Stored? && w.ring.Slot() < |w.ring.cells| then w.(ring := w.ring.Put(w.pc.e), pc := Idle) else w
    case _ => w
  }

  predicate CanSnap(s: System, step: Step) {
    var n := |s.writers|;
    match step
    case StartPause => s.phase == Running
    case PauseNext => s.phase == Pausing
    case CopyCell =>
      && s.phase == Copying && s.next < n && s.next < |s.copies|
      && |s.copies[s.next]| < |s.writers[s.next].mem|
    case CopyNext =>
      && s.phase == Copying
      && (s.next < n ==> s.next < |s.copies| && |s.copies[s.next]| >= |s.writers[s.next].mem|)
    case ResumeNext => s.phase == Resuming
    case _ => false
  }

  function SetEnabled(s: System, i: nat, enabled: bool): seq<Writer>
    requires i < |s.writers|
  {
    s.writers[i := s.writers[i].(enabled := enabled)]
  }

  function Snap(s: System, step: Step): System
    requires CanSnap(s, step)
  {
    var n := |s.writers|;
    match step
    case StartPause => s.(phase := Pausing, next := 0, frozen := [])
    case PauseNext =>
      if s.next < n then
        s.(writers := SetEnabled(s, s.next, false), frozen := s.frozen + [s.writers[s.next].ring], next := s.next + 1)
      else s.(phase := Copying, next := 0, copies := seq(n, _ => []))
    case CopyCell =>
      var i := s.next;
      s.(copies := s.copies[i := s.copies[i] + [s.writers[i].mem[|s.copies[i]|]]])
    case CopyNext => if s.next < n then s.(next := s.next + 1) else s.(phase := Resuming, next := 0)
    case ResumeNext =>
      if s.next < n then s.(writers := SetEnabled(s, s.next, true), next := s.next + 1)
      else s.(phase := Running, next := 0)
  }

  predicate Can(s: System, step: Step) {
    CanWrite(s, step) || CanSnap(s, step)
  }

  /** The clock an event carries is read after everything the thread committed. */
  ghost predicate ClockFits(s: System, step: Step) {
    step.Begin? && step.w < |s.writers| ==> ClockAfter(s.writers[step.w].ring.log, step.e.cycle)
  }

  function Apply(s: System, step: Step): System
    requires Can(s, step)
  {
    if CanSnap(s, step) then Snap(s, step)
    else s.(writers := s.writers[step.w := Write(s.writers[step.w], step)])
  }

  /** A run: every step possible when taken. */
  ghost predicate IsRun(s: System, steps: seq<Step>, t: System)
    decreases |steps|
  {
    if steps == [] then s == t
    else Can(s, steps[0]) && ClockFits(s, steps[0]) && IsRun(Apply(s, steps[0]), steps[1..], t)
  }

  // What every step keeps.

  ghost predicate WriterInv(w: Writer) {
    && w.ring.Valid() && |w.mem| == |w.ring.cells|
    && (w.pc != Idle ==> w.pc.slot == w.ring.Slot() && ClockAfter(w.ring.log, w.pc.e.cycle))
    && (w.pc.Stored? ==> w.mem[w.pc.slot] == w.pc.e)
    && forall j :: 0 <= j < |w.mem| ==>
         w.mem[j] == w.ring.cells[j] || ((w.pc.Half? || w.pc.Stored?) && j == w.pc.slot)
  }

  /** Since its mask was zeroed a writer has committed nothing, or one entry and begun no other. */
  ghost predicate PausedInv(w: Writer, frozen: Cells) {
    && !w.enabled && frozen.Valid()
    && (w.ring == frozen || (w.pc == Idle && exists e :: w.ring == frozen.Put(e)))
  }

  /** All of a copy but the slot that may be in flight is what was committed at the pause. */
  ghost predicate CopyInv(copy: seq<Entry>, frozen: Cells) {
    && |copy| <= |frozen.cells|
    && forall j :: 0 <= j < |copy| && j != frozen.Slot() ==> copy[j] == frozen.cells[j]
  }

  /** The buffers known to be paused. */
  predicate Paused(s: System, i: nat) {
    match s.phase
    case Running => false
    case Pausing => i < s.next
    case Copying => true
    case Resuming => i >= s.next
  }

  ghost predicate SystemInv(s: System) {
    var n := |s.writers|;
    && (forall i :: 0 <= i < n ==> WriterInv(s.writers[i]))
    && (s.phase == Pausing ==> s.next <= n && |s.frozen| == s.next)
    && (s.phase == Copying || s.phase == Resuming ==> |s.frozen| == n && |s.copies| == n && s.next <= n)
    && (forall i :: 0 <= i < |s.frozen| && s.phase != Running ==> s.frozen[i].Valid())
    && (forall i :: 0 <= i < n && Paused(s, i) ==> PausedInv(s.writers[i], s.frozen[i]))
    && (s.phase == Copying || s.phase == Resuming ==> forall i :: 0 <= i < n ==> CopyInv(s.copies[i], s.frozen[i]))
    && (s.phase == Copying ==> forall i :: 0 <= i < s.next ==> |s.copies[i]| == |s.frozen[i].cells|)
    && (s.phase == Resuming ==> forall i :: 0 <= i < n ==> |s.copies[i]| == |s.frozen[i].cells|)
  }

  lemma WriteKeeps(w: Writer, step: Step)
    requires WriterInv(w)
    requires step.Begin? ==> w.pc == Idle && ClockAfter(w.ring.log, step.e.cycle)
    ensures WriterInv(Write(w, step))
  {
    if step.Commit? && w.pc.Stored? {
      w.ring.PutValid(w.pc.e);
    }
  }

  /** A paused writer can finish the entry it had begun, and then does nothing. */
  lemma WriteKeepsPaused(w: Writer, frozen: Cells, step: Step)
    requires WriterInv(w) && PausedInv(w, frozen)
    requires step.Begin? ==> w.pc == Idle
    ensures PausedInv(Write(w, step), frozen)
  {
  }

  lemma PutKeepsOthers(frozen: Cells, e: Entry, j: nat)
    requires frozen.Valid() && j < |frozen.cells| && j != frozen.Slot()
    ensures frozen.Put(e).cells[j] == frozen.cells[j]
  {
  }

  /** A cell read from a paused buffer, other than the slot in flight, is what was committed. */
  lemma PausedCell(w: Writer, frozen: Cells, j: nat)
    requires WriterInv(w) && PausedInv(w, frozen) && j < |w.mem| && j != frozen.Slot()
    ensures |w.mem| == |frozen.cells| && w.mem[j] == frozen.cells[j]
  {
    if w.ring != frozen {
      var e :| w.ring == frozen.Put(e);
      PutKeepsOthers(frozen, e, j);
    }
  }

  lemma WriterStepKeeps(s: System, step: Step)
    requires SystemInv(s) && CanWrite(s, step) && ClockFits(s, step)
    ensures SystemInv(s.(writers := s.writers[step.w := Write(s.writers[step.w], step)]))
  {
    hide WriterInv, PausedInv, CopyInv, Write;
    WriteKeeps(s.writers[step.w], step);
    if Paused(s, step.w) {
      WriteKeepsPaused(s.writers[step.w], s.frozen[step.w], step);
    }
  }

  lemma CopyMore(w: Writer, frozen: Cells, copy: seq<Entry>)
    requires WriterInv(w) && PausedInv(w, frozen) && CopyInv(copy, frozen) && |copy| < |w.mem|
    ensures CopyInv(copy + [w.mem[|copy|]], frozen)
  {
    var e :| w.ring == frozen || w.ring == frozen.Put(e);
    assert |w.mem| == |frozen.cells|;
    if |copy| != frozen.Slot() {
      PausedCell(w, frozen, |copy|);
    }
  }

  lemma CopyCellKeeps(s: System)
    requires SystemInv(s) && CanSnap(s, CopyCell)
    ensures SystemInv(Snap(s, CopyCell))
  {
    CopyMore(s.writers[s.next], s.frozen[s.next], s.copies[s.next]);
  }

  lemma PauseNextKeeps(s: System)
    requires SystemInv(s) && s.phase == Pausing && s.next < |s.writers|
    ensures SystemInv(Snap(s, PauseNext))
  {
    assert PausedInv(s.writers[s.next].(enabled := false), s.writers[s.next].ring);
  }

  lemma SnapKeeps(s: System, step: Step)
    requires SystemInv(s) && CanSnap(s, step)
    ensures SystemInv(Snap(s, step))
  {
    hide WriterInv, PausedInv;
    match step
    case CopyCell => CopyCellKeeps(s);
    case PauseNext =>
      if s.next < |s.writers| {
        PauseNextKeeps(s);
      }
    case CopyNext => CopyNextKeeps(s);
    case ResumeNext => ResumeNextKeeps(s);
    case _ =>
  }

  lemma CopyNextKeeps(s: System)
    requires SystemInv(s) && CanSnap(s, CopyNext)
    ensures SystemInv(Snap(s, CopyNext))
  {
    if s.next < |s.writers| {
      assert WriterInv(s.writers[s.next]) && PausedInv(s.writers[s.next], s.frozen[s.next]);
    }
  }

  lemma ResumeNextKeeps(s: System)
    requires SystemInv(s) && CanSnap(s, ResumeNext)
    ensures SystemInv(Snap(s, ResumeNext))
  {
    hide PausedInv, CopyInv;
    if s.next < |s.writers| {
      assert WriterInv(s.writers[s.next].(enabled := true));
    }
  }

  lemma {:induction false} RunKeeps(s: System, steps: seq<Step>, t: System)
    requires SystemInv(s) && IsRun(s, steps, t)
    ensures SystemInv(t)
    decreases |steps|
  {
    if steps != [] {
      if CanSnap(s, steps[0]) {
        SnapKeeps(s, steps[0]);
      } else {
        WriterStepKeeps(s, steps[0]);
      }
      RunKeeps(Apply(s, steps[0]), steps[1..], t);
    }
  }

  /** Before a snapshot: nothing is being written, and nothing is known to be paused. */
  ghost predicate Quiet(s: System) {
    && s.phase == Running
    && forall i :: 0 <= i < |s.writers| ==> WriterInv(s.writers[i])
  }

  /** However the steps interleave: while a buffer is paused its thread commits at most one entry, the one
  it had begun. */
  lemma AtMostOneCommit(s: System, steps: seq<Step>, t: System, i: nat)
    requires Quiet(s) && IsRun(s, steps, t)
    requires i < |t.writers| && Paused(t, i)
    ensures i < |t.frozen|
    ensures var before, now := t.frozen[i].log, t.writers[i].ring.log;
            now == before || (|now| == |before| + 1 && now[..|before|] == before && t.writers[i].pc == Idle)
  {
    RunKeeps(s, steps, t);
    assert PausedInv(t.writers[i], t.frozen[i]);
  }

  /** However the steps interleave: once the buffers are copied, each copy is what had been committed when
  its buffer was paused, but for the one slot that was due to be overwritten next. */
  lemma CopiesConsistent(s: System, steps: seq<Step>, t: System, i: nat)
    requires Quiet(s) && IsRun(s, steps, t)
    requires t.phase == Resuming && i < |t.writers|
    ensures i < |t.frozen| && i < |t.copies| && |t.copies[i]| == |t.frozen[i].cells|
    ensures t.frozen[i].Valid() && t.frozen[i].Slot() < |t.copies[i]|
    ensures var f := t.frozen[i]; t.copies[i][f.Slot() := f.cells[f.Slot()]] == f.cells
  {
    RunKeeps(s, steps, t);
    assert CopyInv(t.copies[i], t.frozen[i]);
  }

  /** After a run that ends with nothing in flight a buffer's memory is what was committed. */
  lemma IdleIsCommitted(s: System, steps: seq<Step>, t: System, i: nat)
    requires Quiet(s) && IsRun(s, steps, t)
    requires i < |t.writers| && t.writers[i].pc == Idle
    ensures t.writers[i].ring.Valid() && t.writers[i].mem == t.writers[i].ring.cells
  {
    RunKeeps(s, steps, t);
  }

  // Tracing is on again after a snapshot.

  /** The mask of buffer `i` is there: while nothing is paused, while pausing before it is zeroed, and while resuming
  after it was restored. */
  predicate MaskThere(s: System, i: nat)
    requires i < |s.writers|
  {
    match s.phase
    case Running => s.writers[i].enabled
    case Pausing => s.next <= i ==> s.writers[i].enabled
    case Copying => true
    case Resuming => i < s.next ==> s.writers[i].enabled
  }

  ghost predicate MasksInv(s: System) { forall i: nat :: i < |s.writers| ==> MaskThere(s, i) }

  lemma WriteKeepsMask(w: Writer, step: Step)
    ensures Write(w, step).enabled == w.enabled
  {
  }

  lemma WriterStepKeepsMasks(s: System, step: Step)
    requires MasksInv(s) && CanWrite(s, step)
    ensures MasksInv(s.(writers := s.writers[step.w := Write(s.writers[step.w], step)]))
  {
    hide Write;
    WriteKeepsMask(s.writers[step.w], step);
    var t := s.(writers := s.writers[step.w := Write(s.writers[step.w], step)]);
    forall i: nat | i < |t.writers| ensures MaskThere(t, i) {
      assert MaskThere(s, i);
    }
  }

  lemma SnapKeepsMasks(s: System, step: Step)
    requires MasksInv(s) && CanSnap(s, step)
    ensures MasksInv(Snap(s, step))
  {
    forall i: nat | i < |s.writers| ensures MaskThere(Snap(s, step), i) {
      assert MaskThere(s, i);
    }
  }

  /** Whatever the interleaving, and however many snapshots are taken. */
  lemma {:induction false} RunKeepsMasks(s: System, steps: seq<Step>, t: System)
    requires MasksInv(s) && IsRun(s, steps, t)
    ensures MasksInv(t)
    decreases |steps|
  {
    hide MasksInv;
    if steps != [] {
      if CanSnap(s, steps[0]) {
        SnapKeepsMasks(s, steps[0]);
      } else {
        WriterStepKeepsMasks(s, steps[0]);
      }
      RunKeepsMasks(Apply(s, steps[0]), steps[1..], t);
    }
  }

  /** Whatever is paused at first: once the masks have been restored, every thread traces again. */
  lemma TracingResumes(s: System, steps: seq<Step>, t: System, i: nat)
    requires s.phase == Copying && IsRun(s, steps, t) && t.phase == Running && i < |t.writers|
    ensures t.writers[i].enabled
  {
    RunKeepsMasks(s, steps, t);
    assert MaskThere(t, i);
  }

  /** The entry is being written after what was committed before, or has been committed right after it. */
  ghost predicate OnItsWay(w: Writer, before: seq<Entry>, e: Entry) {
    || (w.pc != Idle && w.pc.e == e && w.ring.log == before)
    || before + [e] <= w.ring.log
  }

  lemma WriteKeepsOnItsWay(w: Writer, step: Step, before: seq<Entry>, e: Entry)
    requires WriterInv(w) && OnItsWay(w, before, e) && (step.Begin? ==> w.pc == Idle)
    ensures OnItsWay(Write(w, step), before, e)
  {
  }

  lemma SnapKeepsWork(s: System, step: Step, i: nat)
    requires CanSnap(s, step) && i < |s.writers|
    ensures var t := Snap(s, step);
            i < |t.writers| && t.writers[i] == s.writers[i].(enabled := t.writers[i].enabled)
  {
  }

  lemma {:induction false} RunKeepsOnItsWay(s: System, steps: seq<Step>, t: System, i: nat, before: seq<Entry>,
                                            e: Entry)
    requires SystemInv(s) && IsRun(s, steps, t) && i < |s.writers| && OnItsWay(s.writers[i], before, e)
    ensures i < |t.writers| && OnItsWay(t.writers[i], before, e)
    decreases |steps|
  {
    hide WriterInv, PausedInv, CopyInv, Write, Snap;
    if steps != [] {
      var step := steps[0];
      if CanSnap(s, step) {
        SnapKeeps(s, step);
        SnapKeepsWork(s, step, i);
      } else {
        WriterStepKeeps(s, step);
        if step.w == i {
          WriteKeepsOnItsWay(s.writers[i], step, before, e);
        }
      }
      RunKeepsOnItsWay(Apply(s, step), steps[1..], t, i, before, e);
    }
  }

  /** An event that begins when no snapshot is being taken is recorded, whatever happens meanwhile: by the time its
  thread has nothing in flight, it comes right after all that was recorded before. */
  lemma EventRecorded(s: System, i: nat, e: Entry, steps: seq<Step>, t: System)
    requires SystemInv(s) && MasksInv(s) && s.phase == Running
    requires steps != [] && steps[0] == Begin(i, e) && IsRun(s, steps, t)
    requires i < |t.writers| && t.writers[i].pc == Idle
    ensures i < |s.writers| && s.writers[i].ring.log + [e] <= t.writers[i].ring.log
  {
    hide SystemInv, WriterInv, CanSnap;
    assert i < |s.writers| ==> MaskThere(s, i);
    assert Can(s, Begin(i, e)) && !CanSnap(s, Begin(i, e)) by {
      NoSnap(s, i, e);
    }
    var u := Apply(s, steps[0]);
    WriterStepKeeps(s, steps[0]);
    RunKeepsOnItsWay(u, steps[1..], t, i, s.writers[i].ring.log, e);
  }

  lemma NoSnap(s: System, i: nat, e: Entry)
    ensures !CanSnap(s, Begin(i, e))
  {
  }

  /** And nothing can keep a thread from finishing what it has begun: three steps of its own do. */
  lemma ThreeStepsRecord(s: System, i: nat, e: Entry)
    requires SystemInv(s) && i < |s.writers| && s.writers[i].pc.Loaded? && s.writers[i].pc.e == e
    ensures Can(s, StoreFirst(i))
    ensures var a := Apply(s, StoreFirst(i));
            && Can(a, StoreSecond(i))
            && var b := Apply(a, StoreSecond(i));
               Can(b, Commit(i)) && Apply(b, Commit(i)).writers[i].ring.log == s.writers[i].ring.log + [e]
  {
  }

  /** The buffers known to be paused are just those without their masks. */
  lemma PausedExactly(s: System, i: nat)
    requires SystemInv(s) && MasksInv(s) && i < |s.writers|
    ensures Paused(s, i) <==> !s.writers[i].enabled
  {
    assert MaskThere(s, i);
    assert Paused(s, i) ==> PausedInv(s.writers[i], s.frozen[i]);
  }

  /** The hook for returns has the cycle in the slot first, the others the address. */
  lemma FirstStore(s: System, i: nat)
    requires SystemInv(s) && i < |s.writers| && s.writers[i].pc.Loaded?
    ensures Can(s, StoreFirst(i))
    ensures var w, slot := s.writers[i], s.writers[i].pc.slot;
            && slot < |w.mem| && |Apply(s, StoreFirst(i)).writers[i].mem| == |w.mem|
            && var now := Apply(s, StoreFirst(i)).writers[i].mem[slot];
               if w.cycleFirst then now.cycle == w.pc.e.cycle && now.address == w.mem[slot].address
               else now.address == w.pc.e.address && now.cycle == w.mem[slot].cycle
  {
  }

  // A snapshot can always be finished.

  function PhasesLeft(p: Phase): nat {
    match p
    case Running => 0
    case Resuming => 1
    case Copying => 2
    case Pausing => 3
  }

  function CellsLeft(s: System): int {
    if s.phase == Copying && s.next < |s.writers| && s.next < |s.copies| then
      |s.writers[s.next].mem| - |s.copies[s.next]|
    else 0
  }

  /** What the snapshotter does next. */
  function NextSnap(s: System): Step {
    match s.phase
    case Running => StartPause
    case Pausing => PauseNext
    case Copying => if CellsLeft(s) > 0 then CopyCell else CopyNext
    case Resuming => ResumeNext
  }

  lemma SnapProceeds(s: System)
    requires SystemInv(s) && s.phase != Running
    ensures CanSnap(s, NextSnap(s)) && SystemInv(Snap(s, NextSnap(s)))
    ensures var t := Snap(s, NextSnap(s));
            && |t.writers| == |s.writers|
            && (|| PhasesLeft(t.phase) < PhasesLeft(s.phase)
                || (t.phase == s.phase && s.next < t.next <= |t.writers|)
                || (t.phase == s.phase && t.next == s.next && CellsLeft(t) < CellsLeft(s) && CellsLeft(s) > 0))
  {
    hide WriterInv, PausedInv, CopyInv;
    SnapKeeps(s, NextSnap(s));
  }

  /** Whatever threads are in the middle of, the snapshotter alone can get from any point of a snapshot to its end. */
  lemma {:induction false} SnapshotFinishes(s: System) returns (steps: seq<Step>, t: System)
    requires SystemInv(s)
    ensures IsRun(s, steps, t) && t.phase == Running && SystemInv(t)
    decreases PhasesLeft(s.phase),
              if s.next <= |s.writers| then |s.writers| - s.next else 0,
              if CellsLeft(s) > 0 then CellsLeft(s) else 0
  {
    hide SystemInv, CanSnap, Snap;
    steps, t := [], s;
    if s.phase != Running {
      SnapProceeds(s);
      var rest;
      rest, t := SnapshotFinishes(Snap(s, NextSnap(s)));
      steps := [NextSnap(s)] + rest;
      assert steps[0] == NextSnap(s) && steps[1..] == rest;
    }
  }
}
