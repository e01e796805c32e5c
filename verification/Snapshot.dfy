/** Copying the retained events from a given time on out of a cyclic buffer: two binary searches and two
copies, equal to a plain filter of what the buffer retains. */
module Snapshot {
  import opened Events
  import opened Search
  import opened Ring

  /** The events a range contributes to the snapshot. */
  function Tail(range: seq<Entry>, time: u64, pause: u64): seq<Entry> {
    var q := LowerBound(Answers(range, pause, time));
    if q >= |range| then [] else range[q..]
  }

  /** Finds where the tail of a range begins, none if it is empty. */
  method FindEarliestEventAfter(mem: array<Entry>, begin: nat, end: nat, time: u64, pause: u64)
    returns (p: Option<nat>)
    requires begin <= end <= mem.Length
    ensures var q := LowerBound(Answers(mem[begin..end], pause, time));
            p == if begin + q == end then None else Some(begin + q)
  {
    ghost var less := Answers(mem[begin..end], pause, time);
    var first: nat, len: nat := 0, end - begin;
    while len > 0
      invariant first + len <= |less| && Probe(less, first, len) == LowerBound(less)
    {
      ghost var first0, len0 := first, len;
      var half: nat := len / 2;
      var right := Rotated(pause, mem[begin + first + half].cycle, time);
      assert right == less[first + half];
      if right {
        first, len := first + half + 1, len - half - 1;
      } else {
        len := half;
      }
      ProbeStep(less, first0, len0, right, first, len);
    }
    p := if begin + first == end then None else Some(begin + first);
  }

  /** The events from a time on; all of them for a time after the pause. */
  function Picked(s: seq<Entry>, time: u64, pause: u64): seq<Entry> { if time <= pause then FromTime(s, time) else s }

  /** With no late events and a time not in the future, a range contributes its events from that time on;
  asked for the future, it contributes all of them. */
  lemma TailExact(range: seq<Entry>, time: u64, pause: u64)
    requires Sorted(range) && UpTo(range, pause)
    ensures Tail(range, time, pause) == Picked(range, time, pause)
  {
    if time <= pause {
      OlderSplits(range, time);
      assert [] + range == range;
      LateFirstFound([], range, pause, time);
      TailFrom(range, time, pause, Older(range, time));
    } else {
      FutureFound(range, pause, time);
      TailFrom(range, time, pause, 0);
    }
  }

  lemma TailFrom(range: seq<Entry>, time: u64, pause: u64, q: nat)
    requires q == LowerBound(Answers(range, pause, time)) <= |range|
    ensures Tail(range, time, pause) == range[q..]
  {
  }

  /** What a snapshot of the buffer from `time` on should be. */
  function Wanted(log: seq<Entry>, n: nat, time: u64, pause: u64): seq<Entry> { Picked(LastOf(log, n), time, pause) }

  /** What the entries to the right of the position contribute, if they were ever written. */
  function OlderTail(cells: seq<Entry>, cursor: nat, time: u64, pause: u64): seq<Entry>
    requires 0 < |cells| && cursor <= |cells|
  {
    if cells[|cells| - 1].cycle != 0 then Tail(cells[cursor..], time, pause) else []
  }

  /** What is copied out of a buffer, whatever it holds. */
  function Copied(cells: seq<Entry>, cursor: nat, time: u64, pause: u64): seq<Entry>
    requires 0 < |cells| && cursor <= |cells|
  {
    OlderTail(cells, cursor, time, pause) + Tail(cells[..cursor], time, pause)
  }

  /** The two ranges, the older one only if the buffer was ever filled, contribute what is wanted. */
  lemma RangesExact(c: Cells, time: u64, pause: u64)
    requires c.Valid() && UpTo(c.log, pause)
    ensures Copied(c.cells, c.cursor, time, pause) == Wanted(c.log, |c.cells|, time, pause)
  {
    if c.turn > 0 {
      LaterTurn(c);
      HalvesExact(c.cells[c.cursor..], c.cells[..c.cursor], LastOf(c.log, |c.cells|), time, pause);
    } else {
      FirstTurn(c);
      LeftExact(c.cells, c.cursor, c.log, time, pause);
    }
  }

  lemma LaterTurn(c: Cells)
    requires c.Valid() && c.turn > 0
    ensures LastOf(c.log, |c.cells|) == c.cells[c.cursor..] + c.cells[..c.cursor]
    ensures Sorted(LastOf(c.log, |c.cells|)) && c.cells[|c.cells| - 1].cycle != 0
  {
    hide Sorted;
    c.Chronological();
    c.LastCell();
    SuffixSorted(c.log, |c.log| - |c.cells|);
  }

  lemma SuffixSorted(log: seq<Entry>, i: nat)
    requires Sorted(log) && i <= |log|
    ensures Sorted(log[i..])
  {
  }

  /** Until the buffer is filled its beginning is the log. */
  lemma FirstTurn(c: Cells)
    requires c.Valid() && c.turn == 0
    ensures c.cells[..c.cursor] == c.log && |c.log| <= |c.cells| && Sorted(c.log)
    ensures c.cursor < |c.cells| ==> c.cells[|c.cells| - 1].cycle == 0
  {
  }

  lemma LeftExact(cells: seq<Entry>, cursor: nat, log: seq<Entry>, time: u64, pause: u64)
    requires 0 < |cells| && cursor <= |cells| && cells[..cursor] == log && Sorted(log) && UpTo(log, pause)
    requires cursor < |cells| ==> cells[|cells| - 1].cycle == 0
    ensures Copied(cells, cursor, time, pause) == Wanted(log, |cells|, time, pause)
  {
    TailExact(log, time, pause);
    if cursor == |cells| {
      NothingTail(time, pause);
    }
  }

  lemma NothingTail(time: u64, pause: u64)
    ensures Tail([], time, pause) == []
  {
  }

  lemma HalvesExact(right: seq<Entry>, left: seq<Entry>, whole: seq<Entry>, time: u64, pause: u64)
    requires whole == right + left && Sorted(whole) && UpTo(whole, pause)
    ensures Tail(right, time, pause) + Tail(left, time, pause) == Picked(whole, time, pause)
  {
    assert forall i :: 0 <= i < |right| ==> right[i] == whole[i];
    assert forall i :: 0 <= i < |left| ==> left[i] == whole[|right| + i];
    TailExact(right, time, pause);
    TailExact(left, time, pause);
    FromTimeConcat(right, left, time);
  }

  lemma SliceOf(mem: array<Entry>, i: nat, j: nat)
    requires i <= j <= mem.Length
    ensures mem[i..j] == mem[..][i..j]
    ensures i == 0 ==> mem[i..j] == mem[..][..j]
    ensures j == mem.Length ==> mem[i..j] == mem[..][i..]
  {
  }

  /** The two searches and the two copies, on whatever the memory holds. */
  method CopyOut(mem: array<Entry>, pos: nat, end: nat, time: u64, pause: u64) returns (copy: seq<Entry>)
    requires 0 < end == mem.Length && pos <= end
    ensures copy == Copied(mem[..], pos, time, pause)
  {
    var earliestRight := None;
    if mem[end - 1].cycle != 0 {
      earliestRight := FindEarliestEventAfter(mem, pos, end, time, pause);
    }
    var earliestLeft := FindEarliestEventAfter(mem, 0, pos, time, pause);
    var r := if earliestRight.Some? then earliestRight.value else end;
    var l := if earliestLeft.Some? then earliestLeft.value else pos;
    copy := mem[r..end] + mem[l..pos];
    ghost var cells := mem[..];
    SliceOf(mem, pos, end);
    SliceOf(mem, 0, pos);
    SliceOf(mem, r, end);
    SliceOf(mem, l, pos);
    PartsAreTails(cells, pos, time, pause, r, l);
  }

  /** The copying of one thread's buffer in funtrace_pause_and_get_snapshot_starting_at_time, None if it reads the
  last entry of a buffer that is not there; for a quiescent thread the copy is what is wanted. */
  method SnapshotStartingAt(t: TraceData, time: u64, pause: u64) returns (copy: Option<seq<Entry>>)
    requires t.Valid()
    ensures copy.None? <==> t.bufSize == 0
    ensures copy.Some? ==> copy.value == Copied(t.ring.cells, t.ring.cursor, time, pause)
    ensures copy.Some? && UpTo(t.Log(), pause) ==> copy.value == Wanted(t.Log(), t.mem.Length, time, pause)
  {
    if t.bufSize == 0 {
      return None;
    }
    t.Indices();
    var entries := CopyOut(t.mem, (t.pos - t.buf) / ENTRY_SIZE, t.bufSize / ENTRY_SIZE, time, pause);
    if UpTo(t.Log(), pause) {
      RangesExact(t.ring, time, pause);
    }
    return Some(entries);
  }

  lemma PartsAreTails(cells: seq<Entry>, cursor: nat, time: u64, pause: u64, r: nat, l: nat)
    requires 0 < |cells| && cursor <= |cells|
    requires r == if cells[|cells| - 1].cycle != 0 then cursor + LowerBound(Answers(cells[cursor..], pause, time))
                  else |cells|
    requires l == LowerBound(Answers(cells[..cursor], pause, time))
    ensures cells[r..] + cells[l..cursor] == Copied(cells, cursor, time, pause)
  {
  }
}
