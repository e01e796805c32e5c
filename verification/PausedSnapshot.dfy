/** A snapshot from some time on, taken while threads may still be finishing an entry. The thread's position
may be read before or after that entry is committed, and its slot may hold anything whenever it is read. */
module PausedSnapshot {
  import opened Events
  import opened Search
  import opened Ring
  import opened Snapshot
  import opened PauseProtocol

  /** What is safe from being overwritten: all retained entries but the oldest, of those asked for. */
  function SafeFrom(log: seq<Entry>, n: nat, time: u64, pause: u64): seq<Entry>
    requires n > 0
  {
    Wanted(log, n - 1, time, pause)
  }

  // Reading memory that changes.

  /** A range searched at one time and copied at another. */
  function TailRead(searched: seq<Entry>, copied: seq<Entry>, time: u64, pause: u64): seq<Entry>
    requires |searched| == |copied|
  {
    var q := LowerBound(Answers(searched, pause, time));
    if q >= |copied| then [] else copied[q..]
  }

  /** A buffer whose last entry is tested, which is searched, and which is copied, at three times. */
  function CopiedRead(last: Entry, searched: seq<Entry>, copied: seq<Entry>, cursor: nat, time: u64,
                      pause: u64): seq<Entry>
    requires |searched| == |copied| && cursor <= |copied|
  {
    (if last.cycle != 0 then TailRead(searched[cursor..], copied[cursor..], time, pause) else [])
    + TailRead(searched[..cursor], copied[..cursor], time, pause)
  }

  lemma SteadyRead(cells: seq<Entry>, cursor: nat, time: u64, pause: u64)
    requires 0 < |cells| && cursor <= |cells|
    ensures CopiedRead(cells[|cells| - 1], cells, cells, cursor, time, pause) == Copied(cells, cursor, time, pause)
  {
  }

  /** The entry in the slot being written comes out in front, or not at all. */
  predicate AtMostInFront(copy: seq<Entry>, x: Entry, wanted: seq<Entry>) {
    copy == wanted || copy == [x] + wanted
  }

  lemma PickedIs(s: seq<Entry>, time: u64, pause: u64)
    requires Sorted(s)
    ensures Picked(s, time, pause) == s[TooOld(s, time, pause)..]
  {
    OlderSplits(s, time);
  }

  lemma PickedConcat(a: seq<Entry>, b: seq<Entry>, time: u64, pause: u64)
    ensures Picked(a + b, time, pause) == Picked(a, time, pause) + Picked(b, time, pause)
  {
    FromTimeConcat(a, b, time);
  }

  lemma TailAnyFirst(x: Entry, y: Entry, rest: seq<Entry>, time: u64, pause: u64)
    requires Sorted(rest) && UpTo(rest, pause)
    ensures AtMostInFront(TailRead([x] + rest, [y] + rest, time, pause), y, Picked(rest, time, pause))
  {
    hide Answers, LowerBound, Sorted, UpTo, Picked, TooOld;
    AnyFirstFound(x, rest, pause, time);
    PickedIs(rest, time, pause);
    var q := LowerBound(Answers([x] + rest, pause, time));
    if q == 0 {
      assert TooOld(rest, time, pause) == 0 && rest[0..] == rest;
    } else {
      assert ([y] + rest)[q..] == rest[q - 1..];
    }
  }

  lemma LastOfLess<T>(log: seq<T>, n: nat)
    requires 0 < n <= |log|
    ensures LastOf(log, n - 1) == LastOf(log, n)[1..]
  {
  }

  lemma LastOfMore<T>(log: seq<T>, n: nat, e: T)
    requires n > 0
    ensures LastOf(log + [e], n) == LastOf(log, n - 1) + [e]
  {
  }

  lemma LastOfKeeps(log: seq<Entry>, n: nat, pause: u64)
    requires Sorted(log) && UpTo(log, pause)
    ensures Sorted(LastOf(log, n)) && UpTo(LastOf(log, n), pause)
  {
    var last := LastOf(log, n);
    SuffixSorted(log, |log| - |last|);
    assert forall i :: 0 <= i < |last| ==> last[i] == log[|log| - |last| + i];
  }

  lemma PartsSorted(a: seq<Entry>, b: seq<Entry>, pause: u64)
    requires Sorted(a + b) && UpTo(a + b, pause)
    ensures Sorted(a) && UpTo(a, pause) && Sorted(b) && UpTo(b, pause)
  {
    assert forall i :: 0 <= i < |a| ==> a[i] == (a + b)[i];
    assert forall i :: 0 <= i < |b| ==> b[i] == (a + b)[|a| + i];
  }

  // The position was read before the commit.

  lemma NothingRead(time: u64, pause: u64)
    ensures TailRead([], [], time, pause) == []
  {
  }

  /** The position at the end: the slot is the first one. */
  lemma EndCopied(last: Entry, x: Entry, y: Entry, rest: seq<Entry>, time: u64, pause: u64)
    requires Sorted(rest) && UpTo(rest, pause)
    ensures AtMostInFront(CopiedRead(last, [x] + rest, [y] + rest, 1 + |rest|, time, pause), y,
                          Picked(rest, time, pause))
  {
    hide TailRead, Sorted, UpTo, Picked;
    var n := 1 + |rest|;
    assert ([x] + rest)[n..] == [] == ([y] + rest)[n..];
    assert ([x] + rest)[..n] == [x] + rest;
    assert ([y] + rest)[..n] == [y] + rest;
    NothingRead(time, pause);
    TailAnyFirst(x, y, rest, time, pause);
  }

  lemma SteadyTail(range: seq<Entry>, time: u64, pause: u64)
    requires Sorted(range) && UpTo(range, pause)
    ensures TailRead(range, range, time, pause) == Picked(range, time, pause)
  {
    TailExact(range, time, pause);
  }

  /** The position inside: the slot is the first one right of it. */
  lemma MiddleCopied(last: Entry, x: Entry, y: Entry, right: seq<Entry>, left: seq<Entry>, time: u64, pause: u64)
    requires Sorted(right + left) && UpTo(right + left, pause)
    requires last.cycle == 0 ==> right == []
    ensures AtMostInFront(CopiedRead(last, left + ([x] + right), left + ([y] + right), |left|, time, pause), y,
                          Picked(right + left, time, pause))
  {
    hide TailRead, Sorted, UpTo, Picked;
    var searched, copied := left + ([x] + right), left + ([y] + right);
    assert searched[|left|..] == [x] + right;
    assert copied[|left|..] == [y] + right;
    assert searched[..|left|] == left == copied[..|left|];
    PartsSorted(right, left, pause);
    TailAnyFirst(x, y, right, time, pause);
    SteadyTail(left, time, pause);
    PickedConcat(right, left, time, pause);
    NothingPicked(time, pause);
    InFrontMore(if last.cycle != 0 then TailRead([x] + right, [y] + right, time, pause) else [], y,
                Picked(right, time, pause), Picked(left, time, pause));
  }

  lemma NothingPicked(time: u64, pause: u64)
    ensures Picked([], time, pause) == []
  {
  }

  lemma InFrontMore(copy: seq<Entry>, x: Entry, a: seq<Entry>, b: seq<Entry>)
    requires AtMostInFront(copy, x, a)
    ensures AtMostInFront(copy + b, x, a + b)
  {
    assert [x] + a + b == [x] + (a + b);
  }

  /** The first turn: nothing right of the slot is looked at. */
  lemma YoungCopied(last: Entry, x: Entry, y: Entry, log: seq<Entry>, right: seq<Entry>, time: u64, pause: u64)
    requires Sorted(log) && UpTo(log, pause) && (right != [] ==> last.cycle == 0)
    ensures AtMostInFront(CopiedRead(last, log + ([x] + right), log + ([y] + right), |log|, time, pause), y,
                          Picked(log, time, pause))
  {
    hide TailRead, Sorted, UpTo, Picked;
    if right == [] {
      assert [] + log == log;
      MiddleCopied(last, x, y, [], log, time, pause);
    } else {
      assert (log + ([x] + right))[..|log|] == log == (log + ([y] + right))[..|log|];
      SteadyTail(log, time, pause);
      assert [] + Picked(log, time, pause) == Picked(log, time, pause);
    }
  }

  /** What the test of the last entry sees if the slot in flight holds `x`. */
  function LastRead(c: Cells, x: Entry): Entry
    requires 0 < |c.cells|
  {
    if c.Slot() == |c.cells| - 1 then x else c.cells[|c.cells| - 1]
  }

  /** Whatever is in the slot being written when the last entry is tested, when the buffer is searched and when
  it is copied, the copy is what is safe, with at most the entry that was copied from the slot in front. */
  lemma BeforeCommit(c: Cells, tested: Entry, searched: Entry, copied: Entry, time: u64, pause: u64)
    requires c.Valid() && UpTo(c.log, pause)
    ensures c.Slot() < |c.cells| && c.cursor <= |c.cells|
    ensures AtMostInFront(CopiedRead(LastRead(c, tested), c.cells[c.Slot() := searched], c.cells[c.Slot() := copied],
                                     c.cursor, time, pause),
                          copied, SafeFrom(c.log, |c.cells|, time, pause))
  {
    SlotFits(c);
    if c.cursor == |c.cells| {
      AtEnd(c, tested, searched, copied, time, pause);
    } else {
      Inside(c, tested, searched, copied, time, pause);
    }
  }

  lemma AtEnd(c: Cells, tested: Entry, searched: Entry, copied: Entry, time: u64, pause: u64)
    requires c.Valid() && UpTo(c.log, pause) && c.cursor == |c.cells|
    ensures AtMostInFront(CopiedRead(LastRead(c, tested), c.cells[0 := searched], c.cells[0 := copied],
                                     c.cursor, time, pause),
                          copied, SafeFrom(c.log, |c.cells|, time, pause))
  {
    hide Cells.Valid, Sorted, UpTo, CopiedRead, Picked, LastOf, AtMostInFront, LastRead;
    SlotFits(c);
    var n, rest := |c.cells|, c.cells[1..];
    Filled(c);
    LastOfKeeps(c.log, n - 1, pause);
    LastOfLess(c.log, n);
    assert c.cells[0 := searched] == [searched] + rest;
    assert c.cells[0 := copied] == [copied] + rest;
    assert c.cells[n..] + c.cells[..n] == c.cells;
    EndCopied(LastRead(c, tested), searched, copied, rest, time, pause);
  }

  lemma Inside(c: Cells, tested: Entry, searched: Entry, copied: Entry, time: u64, pause: u64)
    requires c.Valid() && UpTo(c.log, pause) && c.cursor < |c.cells|
    ensures AtMostInFront(CopiedRead(LastRead(c, tested), c.cells[c.cursor := searched], c.cells[c.cursor := copied],
                                     c.cursor, time, pause),
                          copied, SafeFrom(c.log, |c.cells|, time, pause))
  {
    hide Cells.Valid, Sorted, UpTo, CopiedRead, Picked, LastOf, AtMostInFront, LastRead;
    var n, left, right := |c.cells|, c.cells[..c.cursor], c.cells[c.cursor + 1..];
    var last := LastRead(c, tested);
    SlotFits(c);
    LastOfKeeps(c.log, n - 1, pause);
    LastReadTells(c, tested);
    assert c.cells[c.cursor := searched] == left + ([searched] + right);
    assert c.cells[c.cursor := copied] == left + ([copied] + right);
    if c.turn == 0 {
      FirstTurn(c);
      WholeLog(c.log, n - 1);
      YoungCopied(last, searched, copied, c.log, right, time, pause);
    } else {
      Filled(c);
      LastOfLess(c.log, n);
      assert (c.cells[c.cursor..] + left)[1..] == right + left;
      MiddleCopied(last, searched, copied, right, left, time, pause);
    }
  }

  /** Unless the last entry is the one in flight, testing it tells if the buffer was ever filled. */
  lemma LastReadTells(c: Cells, tested: Entry)
    requires c.Valid() && c.cursor < |c.cells|
    ensures c.cells[c.cursor + 1..] != [] ==> (LastRead(c, tested).cycle == 0 <==> c.turn == 0)
  {
    c.LastCell();
  }

  lemma SlotFits(c: Cells)
    requires c.Valid()
    ensures c.Slot() < |c.cells| && c.cursor <= |c.cells| && Sorted(c.log) && |c.log| == c.turn + c.cursor
  {
  }

  lemma Filled(c: Cells)
    requires c.Valid() && (c.turn > 0 || c.cursor == |c.cells|)
    ensures LastOf(c.log, |c.cells|) == c.cells[c.cursor..] + c.cells[..c.cursor]
    ensures |c.log| >= |c.cells| && c.cells[|c.cells| - 1].cycle != 0
  {
    c.Chronological();
    c.LastCell();
    assert c.cursor == |c.cells| ==> c.cells[c.cursor..] == [];
  }

  // The position was read after the commit.

  /** With a late entry at the end of the left part, that entry is copied too, or nothing of that part, of which
  then at most one event was wanted. */
  function WithLate(wanted: seq<Entry>, before: seq<Entry>, e: Entry, time: u64, pause: u64): seq<Entry> {
    var lost := |before| - TooOld(before, time, pause);
    if !LateLastMisses(before, e, pause, time) then wanted + [e]
    else if lost <= |wanted| then wanted[..|wanted| - lost]
    else wanted
  }

  /** At most one event is lost. */
  lemma AtMostOneLost(wanted: seq<Entry>, before: seq<Entry>, e: Entry, time: u64, pause: u64)
    ensures var copy := WithLate(wanted, before, e, time, pause);
            |copy| >= |wanted| - 1 && (copy == wanted + [e] || copy <= wanted)
  {
  }

  lemma TailLate(before: seq<Entry>, e: Entry, time: u64, pause: u64)
    requires Sorted(before) && UpTo(before, pause) && e.cycle > pause
    ensures Tail(before + [e], time, pause) == WithLate(Picked(before, time, pause), before, e, time, pause)
  {
    hide Answers, LowerBound, Sorted, UpTo, LateLastMisses, Picked, TooOld;
    LateLastFound(before, e, pause, time);
    PickedIs(before, time, pause);
    var q := LowerBound(Answers(before + [e], pause, time));
    TailFrom(before + [e], time, pause, q);
    if q <= |before| {
      assert (before + [e])[q..] == before[q..] + [e];
    }
  }

  lemma LateCopied(cells: seq<Entry>, cursor: nat, right: seq<Entry>, before: seq<Entry>, e: Entry, time: u64,
                   pause: u64)
    requires 0 < |cells| && cursor <= |cells| && cells[..cursor] == before + [e]
    requires Sorted(right + before) && UpTo(right + before, pause) && e.cycle > pause
    requires if cells[|cells| - 1].cycle != 0 then cells[cursor..] == right else right == []
    ensures Copied(cells, cursor, time, pause) == WithLate(Picked(right + before, time, pause), before, e, time, pause)
  {
    hide Tail, Picked, Sorted, UpTo, WithLate;
    PartsSorted(right, before, pause);
    TailExact(right, time, pause);
    TailLate(before, e, time, pause);
    PickedConcat(right, before, time, pause);
    NothingPicked(time, pause);
    WithLateMore(Picked(right, time, pause), before, e, time, pause);
  }

  lemma WithLateMore(r: seq<Entry>, before: seq<Entry>, e: Entry, time: u64, pause: u64)
    requires Sorted(before)
    ensures r + WithLate(Picked(before, time, pause), before, e, time, pause)
         == WithLate(r + Picked(before, time, pause), before, e, time, pause)
  {
    hide Picked, TooOld, LateLastMisses;
    PickedIs(before, time, pause);
    var b := Picked(before, time, pause);
    assert r + (b + [e]) == r + b + [e];
    assert (r + b)[..|r|] == r;
  }

  lemma PutFacts(c: Cells, e: Entry)
    requires c.Slot() < |c.cells|
    ensures var d := c.Put(e); d.log == c.log + [e] && |d.cells| == |c.cells| && 0 < d.cursor <= |c.cells|
    ensures var d := c.Put(e); d.cells[..d.cursor] == d.cells[..d.cursor - 1] + [e]
  {
  }

  /** What is copied once an entry was committed meanwhile. */
  function WithCommitted(safe: seq<Entry>, before: seq<Entry>, e: Entry, time: u64, pause: u64): seq<Entry> {
    if e.cycle > pause then WithLate(safe, before, e, time, pause)
    else safe + if time > pause || e.cycle >= time then [e] else []
  }

  /** An entry committed meanwhile and dated before the pause is just one more; one dated after it costs at
  most the newest event before the pause. */
  lemma AfterCommit(c: Cells, d: Cells, e: Entry, time: u64, pause: u64)
    requires c.Valid() && c.Slot() < |c.cells| && d == c.Put(e) && d.Valid() && UpTo(c.log, pause)
    ensures 0 < d.cursor <= |d.cells|
    ensures Copied(d.cells, d.cursor, time, pause)
         == WithCommitted(SafeFrom(c.log, |c.cells|, time, pause), d.cells[..d.cursor - 1], e, time, pause)
  {
    hide Cells.Valid, Cells.Put, Cells.Slot, Sorted, UpTo, Copied, LastOf, Picked, WithLate;
    PutFacts(c, e);
    LastOfMore(c.log, |c.cells|, e);
    if e.cycle <= pause {
      UpToMore(c.log, e, pause);
      RangesExact(d, time, pause);
      OneMore(LastOf(c.log, |c.cells| - 1), e, time, pause);
    } else {
      LateParts(c, d, e, time, pause);
    }
  }

  lemma UpToMore(log: seq<Entry>, e: Entry, pause: u64)
    requires UpTo(log, pause) && e.cycle <= pause
    ensures UpTo(log + [e], pause)
  {
  }

  lemma OneMore(log: seq<Entry>, e: Entry, time: u64, pause: u64)
    ensures Picked(log + [e], time, pause)
         == Picked(log, time, pause) + if time > pause || e.cycle >= time then [e] else []
  {
    assert (log + [e])[..|log|] == log;
  }

  lemma LateParts(c: Cells, d: Cells, e: Entry, time: u64, pause: u64)
    requires c.Valid() && c.Slot() < |c.cells| && d == c.Put(e) && d.Valid() && 0 < d.cursor <= |d.cells|
    requires UpTo(c.log, pause) && e.cycle > pause
    ensures Copied(d.cells, d.cursor, time, pause)
         == WithLate(SafeFrom(c.log, |c.cells|, time, pause), d.cells[..d.cursor - 1], e, time, pause)
  {
    hide Cells.Valid, Cells.Put, Cells.Slot, Sorted, UpTo, Copied, LastOf, Picked, WithLate;
    var n := |c.cells|;
    SlotFits(c);
    PutFacts(c, e);
    LastOfMore(c.log, n, e);
    LastOfKeeps(c.log, n - 1, pause);
    var last, before := LastOf(c.log, n - 1), d.cells[..d.cursor - 1];
    if d.turn > 0 || d.cursor == n {
      Filled(d);
      var right := d.cells[d.cursor..];
      DropLast(last, right, before, e);
      LateCopied(d.cells, d.cursor, right, before, e, time, pause);
    } else {
      FirstTurn(d);
      WholeLog(d.log, n);
      assert [] + (before + [e]) == before + [e];
      DropLast(last, [], before, e);
      LateCopied(d.cells, d.cursor, [], before, e, time, pause);
    }
  }

  lemma WholeLog(log: seq<Entry>, n: nat)
    requires |log| <= n
    ensures LastOf(log, n) == log
  {
  }

  lemma DropLast(a: seq<Entry>, b: seq<Entry>, c: seq<Entry>, e: Entry)
    requires a + [e] == b + (c + [e])
    ensures a == b + c
  {
    assert a == (a + [e])[..|a|];
    assert b + c == (b + (c + [e]))[..|a|];
  }

  // Any interleaving.

  /** While a buffer is paused, its memory differs from what was committed at the pause in one slot at most. */
  lemma OneSlotDiffers(w: Writer, f: Cells)
    requires WriterInv(w) && PausedInv(w, f)
    ensures f.Slot() < |w.mem| == |f.cells| && w.mem == f.cells[f.Slot() := w.mem[f.Slot()]]
  {
    if w.ring != f {
      var e :| w.ring == f.Put(e);
      assert w.mem == w.ring.cells;
    }
  }

  /** A run during which buffer `i` stays paused. */
  ghost predicate PausedRun(s: System, steps: seq<Step>, t: System, i: nat)
    decreases |steps|
  {
    && Paused(s, i)
    && if steps == [] then s == t
       else Can(s, steps[0]) && ClockFits(s, steps[0]) && PausedRun(Apply(s, steps[0]), steps[1..], t, i)
  }

  /** What does not change while buffer `i` stays paused: what was committed at the pause, and a thread that has
  committed an entry since. */
  ghost predicate Steady(s: System, t: System, i: nat) {
    && |t.writers| == |s.writers| && i < |s.writers| && i < |s.frozen| && i < |t.frozen|
    && t.frozen[i] == s.frozen[i]
    && (s.writers[i].ring != s.frozen[i] ==> t.writers[i] == s.writers[i])
  }

  lemma WriterStepSteady(s: System, step: Step, i: nat)
    requires SystemInv(s) && CanWrite(s, step) && i < |s.writers| && Paused(s, i)
    ensures Steady(s, s.(writers := s.writers[step.w := Write(s.writers[step.w], step)]), i)
  {
    assert PausedInv(s.writers[i], s.frozen[i]);
  }

  lemma SnapSteady(s: System, step: Step, i: nat)
    requires SystemInv(s) && CanSnap(s, step) && i < |s.writers| && Paused(s, i) && Paused(Snap(s, step), i)
    ensures Steady(s, Snap(s, step), i)
  {
    hide WriterInv, PausedInv, CopyInv;
  }

  lemma {:induction false} PausedSteady(s: System, steps: seq<Step>, t: System, i: nat)
    requires SystemInv(s) && i < |s.writers| && PausedRun(s, steps, t, i)
    ensures SystemInv(t) && Paused(t, i) && Steady(s, t, i)
    decreases |steps|
  {
    hide WriterInv, PausedInv, CopyInv, Write, Snap;
    if steps != [] {
      var next := Apply(s, steps[0]);
      if CanSnap(s, steps[0]) {
        SnapKeeps(s, steps[0]);
        SnapSteady(s, steps[0], i);
      } else {
        WriterStepKeeps(s, steps[0]);
        WriterStepSteady(s, steps[0], i);
      }
      PausedSteady(next, steps[1..], t, i);
    }
  }

  /** The instants at which a paused buffer is looked at: its position is read, its last entry tested, it is
  searched and it is copied. The steps between them may be any. */
  datatype Instants = Instants(
    read: System, toTest: seq<Step>, test: System, toSearch: seq<Step>, search: System, toCopy: seq<Step>, copy: System)

  ghost predicate WhilePaused(at: Instants, i: nat) {
    && PausedRun(at.read, at.toTest, at.test, i)
    && PausedRun(at.test, at.toSearch, at.search, i)
    && PausedRun(at.search, at.toCopy, at.copy, i)
  }

  function Mem(s: System, i: nat): seq<Entry> { if i < |s.writers| then s.writers[i].mem else [] }

  function LastOfMem(s: System, i: nat): Entry {
    if Mem(s, i) == [] then Entry(0, 0) else Mem(s, i)[|Mem(s, i)| - 1]
  }

  lemma PausedFacts(s: System, i: nat)
    requires SystemInv(s) && i < |s.writers| && Paused(s, i)
    ensures i < |s.frozen| && s.frozen[i].Valid() && WriterInv(s.writers[i]) && PausedInv(s.writers[i], s.frozen[i])
  {
  }

  /** What the slot in flight holds, and with it the whole memory. */
  lemma SlotOf(s: System, i: nat, f: Cells) returns (x: Entry)
    requires SystemInv(s) && i < |s.writers| && Paused(s, i) && i < |s.frozen| && s.frozen[i] == f
    ensures f.Slot() < |f.cells| && Mem(s, i) == f.cells[f.Slot() := x] && LastOfMem(s, i) == LastRead(f, x)
  {
    PausedFacts(s, i);
    OneSlotDiffers(s.writers[i], f);
    x := s.writers[i].mem[f.Slot()];
  }

  lemma QuietInv(s: System)
    requires Quiet(s)
    ensures SystemInv(s)
  {
  }

  lemma PausedStart(at: Instants, i: nat)
    requires WhilePaused(at, i)
    ensures Paused(at.read, i)
  {
  }

  lemma CommittedCopy(w: Writer, f: Cells, time: u64, pause: u64) returns (e: Entry)
    requires WriterInv(w) && PausedInv(w, f) && w.ring != f && UpTo(f.log, pause)
    ensures f.Slot() < |f.cells| == |w.mem| && w.ring == f.Put(e) && 0 < w.ring.cursor <= |w.mem|
    ensures Copied(w.mem, w.ring.cursor, time, pause)
         == WithCommitted(SafeFrom(f.log, |f.cells|, time, pause), w.ring.cells[..w.ring.cursor - 1], e, time, pause)
  {
    hide Copied, WithCommitted, SafeFrom, UpTo;
    SlotFits(f);
    e :| w.ring == f.Put(e);
    PutFacts(f, e);
    assert w.mem == w.ring.cells;
    AfterCommit(f, w.ring, e, time, pause);
  }

  ghost predicate InvAt(s: System, i: nat, f: Cells) {
    SystemInv(s) && i < |s.writers| && Paused(s, i) && i < |s.frozen| && s.frozen[i] == f
  }

  /** While the buffer is looked at, what was committed at the pause stays, and so does a thread that has
  committed an entry since. */
  lemma StaysPaused(s: System, steps: seq<Step>, at: Instants, i: nat)
    requires Quiet(s) && IsRun(s, steps, at.read) && i < |at.read.writers| && WhilePaused(at, i)
    ensures i < |at.read.frozen|
    ensures var f := at.read.frozen[i];
            InvAt(at.read, i, f) && InvAt(at.test, i, f) && InvAt(at.search, i, f) && InvAt(at.copy, i, f)
    ensures at.read.writers[i].ring != at.read.frozen[i]
        ==> at.test.writers[i] == at.search.writers[i] == at.copy.writers[i] == at.read.writers[i]
  {
    hide SystemInv, Quiet, IsRun, PausedRun;
    QuietInv(s);
    RunKeeps(s, steps, at.read);
    PausedStart(at, i);
    PausedSteady(at.read, at.toTest, at.test, i);
    PausedSteady(at.test, at.toSearch, at.search, i);
    PausedSteady(at.search, at.toCopy, at.copy, i);
  }

  lemma UncommittedCopy(at: Instants, i: nat, f: Cells, time: u64, pause: u64) returns (e: Entry)
    requires InvAt(at.test, i, f) && InvAt(at.search, i, f) && InvAt(at.copy, i, f)
    requires f.Valid() && UpTo(f.log, pause)
    ensures f.cursor <= |f.cells| == |Mem(at.search, i)| == |Mem(at.copy, i)| && |f.cells| > 0
    ensures AtMostInFront(CopiedRead(LastOfMem(at.test, i), Mem(at.search, i), Mem(at.copy, i), f.cursor, time, pause),
                          e, SafeFrom(f.log, |f.cells|, time, pause))
  {
    hide SystemInv, CopiedRead, SafeFrom, AtMostInFront, UpTo, Mem, LastOfMem, LastRead, Cells.Valid;
    SlotFits(f);
    var tested := SlotOf(at.test, i, f);
    var searched := SlotOf(at.search, i, f);
    e := SlotOf(at.copy, i, f);
    BeforeCommit(f, tested, searched, e, time, pause);
  }

  /** However the steps interleave: copying a paused buffer gives, if its thread had not committed an entry when
  its position was read, everything safe, with at most the entry being written in front; if it had, also that
  entry, except that one dated after the pause can cost the newest other. */
  lemma PausedCopy(s: System, steps: seq<Step>, at: Instants, i: nat, time: u64, pause: u64) returns (e: Entry)
    requires Quiet(s) && IsRun(s, steps, at.read) && i < |at.read.writers| && WhilePaused(at, i)
    requires i < |at.read.frozen| ==> UpTo(at.read.frozen[i].log, pause)
    ensures i < |at.read.frozen|
    ensures var w, f := at.read.writers[i], at.read.frozen[i];
            && f.Slot() < |f.cells| == |Mem(at.search, i)| == |Mem(at.copy, i)| && w.ring.cursor <= |f.cells|
            && var copy :=
                 CopiedRead(LastOfMem(at.test, i), Mem(at.search, i), Mem(at.copy, i), w.ring.cursor, time, pause);
               && (w.ring == f ==> var safe := SafeFrom(f.log, |f.cells|, time, pause);
                                   copy == safe || copy == [e] + safe)
               && (w.ring != f ==>
                     && w.ring == f.Put(e) && 0 < w.ring.cursor
                     && copy == WithCommitted(SafeFrom(f.log, |f.cells|, time, pause),
                                              w.ring.cells[..w.ring.cursor - 1], e, time, pause))
  {
    hide WriterInv, PausedInv, CopiedRead, SafeFrom, WithCommitted, UpTo, SystemInv, Cells.Valid, LastOfMem;
    StaysPaused(s, steps, at, i);
    var w, f := at.read.writers[i], at.read.frozen[i];
    PausedFacts(at.read, i);
    SlotFits(f);
    if w.ring == f {
      e := UncommittedCopy(at, i, f, time, pause);
    } else {
      e := CommittedCopy(w, f, time, pause);
      LastOfSame(at.test, i, w);
      SteadyRead(w.mem, w.ring.cursor, time, pause);
    }
  }

  lemma LastOfSame(s: System, i: nat, w: Writer)
    requires i < |s.writers| && s.writers[i] == w && w.mem != []
    ensures LastOfMem(s, i) == w.mem[|w.mem| - 1]
  {
  }
}
