/** The cyclic buffer of ftrace lines and its snapshot: two binary searches and two copies, under a lock. */
module Ftrace {
  import opened Events
  import opened Search
  import opened Timestamps
  import opened Ring

  const UNWRITTEN: FtraceEvent := FtraceEvent(0, "")

  function Unwritten(n: nat): (s: seq<FtraceEvent>)
    ensures |s| == n && forall i :: 0 <= i < n ==> s[i] == UNWRITTEN
  {
    seq(n, _ => UNWRITTEN)
  }

  /** The `n` slots in the order they were last written, slots never written coming first. */
  function Retained(log: seq<FtraceEvent>, n: nat): (s: seq<FtraceEvent>)
    ensures |s| == n
  {
    (Unwritten(n) + log)[|log|..]
  }

  function Rotation(slots: seq<FtraceEvent>, pos: nat): seq<FtraceEvent>
    requires pos <= |slots|
  {
    slots[pos..] + slots[..pos]
  }

  ghost predicate Holds(slots: seq<FtraceEvent>, pos: nat, log: seq<FtraceEvent>) {
    pos < |slots| && Rotation(slots, pos) == Retained(log, |slots|)
  }

  lemma RetainedMore(log: seq<FtraceEvent>, n: nat, e: FtraceEvent)
    requires n > 0
    ensures Retained(log + [e], n) == Retained(log, n)[1..] + [e]
  {
    assert Unwritten(n) + (log + [e]) == Unwritten(n) + log + [e];
  }

  lemma RotationMore(slots: seq<FtraceEvent>, pos: nat, e: FtraceEvent)
    requires pos < |slots|
    ensures Rotation(slots[pos := e], pos + 1) == Rotation(slots, pos)[1..] + [e]
  {
  }

  lemma NextPos(pos: nat, n: nat)
    requires pos < n
    ensures (pos + 1) % n == if pos + 1 == n then 0 else pos + 1
  {
  }

  lemma StoreHolds(slots: seq<FtraceEvent>, pos: nat, next: nat, log: seq<FtraceEvent>, e: FtraceEvent)
    requires Holds(slots, pos, log) && next == if pos + 1 == |slots| then 0 else pos + 1
    ensures Holds(slots[pos := e], next, log + [e])
  {
    var more := slots[pos := e];
    RetainedMore(log, |slots|, e);
    RotationMore(slots, pos, e);
    assert next == 0 ==> Rotation(more, pos + 1) == Rotation(more, 0);
  }

  function LinesOf(events: seq<FtraceEvent>): (lines: seq<string>)
    ensures |lines| == |events| && forall i :: 0 <= i < |lines| ==> lines[i] == events[i].line
  {
    seq(|events|, i requires 0 <= i < |events| => events[i].line)
  }

  /** The events at `time` or later. */
  function FromTimestamp(events: seq<FtraceEvent>, time: u64): seq<FtraceEvent> {
    if events == [] then []
    else if events[0].timestamp >= time then [events[0]] + FromTimestamp(events[1..], time)
    else FromTimestamp(events[1..], time)
  }

  ghost predicate InTime(events: seq<FtraceEvent>) {
    forall i, j :: 0 <= i < j < |events| ==> events[i].timestamp <= events[j].timestamp
  }

  lemma {:induction false} FromTimestampConcat(a: seq<FtraceEvent>, b: seq<FtraceEvent>, time: u64)
    ensures FromTimestamp(a + b, time) == FromTimestamp(a, time) + FromTimestamp(b, time)
    decreases |a|
  {
    if a == [] {
      assert a + b == b;
    } else {
      assert (a + b)[1..] == a[1..] + b;
      FromTimestampConcat(a[1..], b, time);
    }
  }

  lemma {:induction false} AllFrom(events: seq<FtraceEvent>, time: u64)
    requires forall i :: 0 <= i < |events| ==> events[i].timestamp >= time
    ensures FromTimestamp(events, time) == events
    decreases |events|
  {
    if events != [] {
      AllFrom(events[1..], time);
    }
  }

  lemma {:induction false} NoneFrom(events: seq<FtraceEvent>, time: u64)
    requires forall i :: 0 <= i < |events| ==> events[i].timestamp < time
    ensures FromTimestamp(events, time) == []
    decreases |events|
  {
    if events != [] {
      NoneFrom(events[1..], time);
    }
  }

  /** What the search is told of each event: is it before the time? */
  function Before(events: seq<FtraceEvent>, time: u64): (less: seq<bool>)
    ensures |less| == |events| && forall i :: 0 <= i < |less| ==> (less[i] <==> events[i].timestamp < time)
  {
    seq(|events|, i requires 0 <= i < |events| => events[i].timestamp < time)
  }

  function Tail(events: seq<FtraceEvent>, time: u64): seq<FtraceEvent> { events[LowerBound(Before(events, time))..] }

  lemma {:induction false} PartitionPoint(events: seq<FtraceEvent>, time: u64) returns (q: nat)
    requires InTime(events)
    ensures q <= |events|
    ensures forall i :: 0 <= i < q ==> events[i].timestamp < time
    ensures forall i :: q <= i < |events| ==> events[i].timestamp >= time
    decreases |events|
  {
    if events == [] || events[|events| - 1].timestamp < time {
      q := |events|;
    } else {
      q := PartitionPoint(events[..|events| - 1], time);
    }
  }

  /** On events in the order of time, the search splits off those at `time` or later. */
  lemma TailIsFilter(events: seq<FtraceEvent>, time: u64)
    requires InTime(events)
    ensures Tail(events, time) == FromTimestamp(events, time)
  {
    var q := PartitionPoint(events, time);
    ProbePartitioned(Before(events, time), 0, |events|, q);
    assert events == events[..q] + events[q..];
    FromTimestampConcat(events[..q], events[q..], time);
    NoneFrom(events[..q], time);
    AllFrom(events[q..], time);
  }

  /** Both halves of the buffer, older first. */
  lemma HalvesAreFilter(right: seq<FtraceEvent>, left: seq<FtraceEvent>, time: u64)
    requires InTime(right + left)
    ensures Tail(right, time) + Tail(left, time) == FromTimestamp(right + left, time)
  {
    assert forall i :: 0 <= i < |right| ==> right[i] == (right + left)[i];
    assert forall i :: 0 <= i < |left| ==> left[i] == (right + left)[|right| + i];
    TailIsFilter(right, time);
    TailIsFilter(left, time);
    FromTimestampConcat(right, left, time);
  }

  /** Stored events have a timestamp, and time does not go back. */
  ghost predicate Stamped(log: seq<FtraceEvent>) {
    InTime(log) && forall i :: 0 <= i < |log| ==> log[i].timestamp > 0
  }

  lemma RetainedInTime(log: seq<FtraceEvent>, n: nat)
    requires Stamped(log)
    ensures InTime(Retained(log, n))
  {
    var all := Unwritten(n) + log;
    assert InTime(all);
  }

  lemma RetainedIs(log: seq<FtraceEvent>, n: nat)
    ensures Retained(log, n) == Unwritten(n - |LastOf(log, n)|) + LastOf(log, n)
  {
  }

  /** From any positive time on, slots never written are left out; from time zero on, each of them is an
  empty line. */
  lemma RetainedFrom(log: seq<FtraceEvent>, n: nat, time: u64)
    requires Stamped(log)
    ensures FromTimestamp(Retained(log, n), time)
         == if time > 0 then FromTimestamp(LastOf(log, n), time)
            else Unwritten(n - |LastOf(log, n)|) + LastOf(log, n)
  {
    RetainedIs(log, n);
    if time > 0 {
      FromTimestampConcat(Unwritten(n - |LastOf(log, n)|), LastOf(log, n), time);
      NoneFrom(Unwritten(n - |LastOf(log, n)|), time);
    } else {
      AllFrom(Retained(log, n), time);
    }
  }

  // Reading the buffer out of a core dump.

  /** The written slots' lines, one after the other. */
  function CollectLines(events: seq<FtraceEvent>): seq<string> {
    if events == [] then []
    else (if events[0].timestamp != 0 then [events[0].line] else []) + CollectLines(events[1..])
  }

  function CoreDumpLines(slots: seq<FtraceEvent>, pos: nat): seq<string>
    requires pos <= |slots|
  {
    CollectLines(slots[pos..]) + CollectLines(slots[..pos])
  }

  lemma {:induction false} CollectIsFilter(events: seq<FtraceEvent>)
    ensures CollectLines(events) == LinesOf(FromTimestamp(events, 1))
    decreases |events|
  {
    if events != [] {
      CollectIsFilter(events[1..]);
      assert events[0].timestamp != 0
        ==> LinesOf([events[0]] + FromTimestamp(events[1..], 1))
            == [events[0].line] + LinesOf(FromTimestamp(events[1..], 1));
    }
  }

  /** The scan of a core dump and a snapshot of everything have the same lines. */
  lemma CoreDumpSame(slots: seq<FtraceEvent>, pos: nat, log: seq<FtraceEvent>)
    requires Holds(slots, pos, log) && Stamped(log)
    ensures CoreDumpLines(slots, pos) == LinesOf(LastOf(log, |slots|))
  {
    var right, left := slots[pos..], slots[..pos];
    CollectIsFilter(right);
    CollectIsFilter(left);
    FromTimestampConcat(right, left, 1);
    RetainedFrom(log, |slots|, 1);
    AllFrom(LastOf(log, |slots|), 1);
    LinesOfConcat(FromTimestamp(right, 1), FromTimestamp(left, 1));
  }

  class FtraceHandler {
    const events: array<FtraceEvent>
    var pos: nat
    ghost var log: seq<FtraceEvent>

    constructor (size: nat)
      requires size > 0
      ensures Valid() && log == [] && events.Length == size && fresh(events)
    {
      events := new FtraceEvent[size](_ => UNWRITTEN);
      pos, log := 0, [];
      new;
      assert Rotation(events[..], 0) == Retained(log, events.Length);
    }

    ghost predicate Valid()
      reads this, events
    {
      Holds(events[..], pos, log)
    }

    /** The reader thread's work on one line; lines without a timestamp are not events. */
    method ReadLine(line: string)
      requires Valid()
      modifies this, events
      ensures Valid()
      ensures log == old(log) + if RuntimeTimestamp(line) != 0 then [FtraceEvent(RuntimeTimestamp(line), line)] else []
    {
      var timestamp := ParseTimestamp(line);
      if timestamp != 0 {
        ghost var slots, event := events[..], FtraceEvent(timestamp, line);
        events[pos] := FtraceEvent(timestamp, line);
        assert events[..] == slots[pos := event];
        NextPos(pos, events.Length);
        StoreHolds(slots, pos, (pos + 1) % events.Length, log, event);
        pos := (pos + 1) % events.Length;
        log := log + [event];
      }
    }

    method FindEarliestEventAfter(begin: nat, end: nat, time: u64) returns (p: Option<nat>)
      requires begin <= end <= events.Length
      ensures var q := LowerBound(Before(events[begin..end], time));
              p == if begin + q == end then None else Some(begin + q)
    {
      ghost var less := Before(events[begin..end], time);
      var first: nat, len: nat := 0, end - begin;
      while len > 0
        invariant first + len <= |less| && Probe(less, first, len) == LowerBound(less)
      {
        ghost var first0, len0 := first, len;
        var half: nat := len / 2;
        var right := events[begin + first + half].timestamp < time;
        assert right == less[first + half];
        if right {
          first, len := first + half + 1, len - half - 1;
        } else {
          len := half;
        }
        ProbeStep(less, first0, len0, right, first, len);
      }
      p := if begin + first == end then None else Some(begin + first);
    }

    method Copy(snapshot: array<string>, start: nat, begin: nat, end: nat) returns (next: nat)
      requires begin <= end <= events.Length && start + end - begin <= snapshot.Length
      modifies snapshot
      ensures next == start + end - begin
      ensures snapshot[..next] == old(snapshot[..start]) + LinesOf(events[begin..end])
    {
      next := start;
      var p := begin;
      while p < end
        invariant begin <= p <= end && next == start + p - begin
        invariant snapshot[..next] == old(snapshot[..start]) + LinesOf(events[begin..p])
      {
        assert events[begin..p + 1] == events[begin..p] + [events[p]];
        snapshot[next] := events[p].line;
        next := next + 1;
        p := p + 1;
      }
    }

    /** The lines of the last events, as many as there are slots, from a time on. */
    method EventsSnapshot(time: u64) returns (snapshot: array<string>)
      requires Valid()
      ensures fresh(snapshot)
      ensures Stamped(log) ==> snapshot[..] == LinesOf(FromTimestamp(Retained(log, events.Length), time))
      ensures Stamped(log) && time > 0 ==> snapshot[..] == LinesOf(FromTimestamp(LastOf(log, events.Length), time))
    {
      var end := events.Length;
      var earliestRight := FindEarliestEventAfter(pos, end, time);
      var earliestLeft := FindEarliestEventAfter(0, pos, time);
      var r := if earliestRight.Some? then earliestRight.value else end;
      var l := if earliestLeft.Some? then earliestLeft.value else pos;
      ghost var slots := events[..];
      assert events[pos..end] == slots[pos..] && events[0..pos] == slots[..pos];
      snapshot := CopyBoth(r, l);
      if Stamped(log) {
        HalvesFrom(slots, pos, log, time, r, l);
        RetainedFrom(log, end, time);
      }
    }

    method CopyBoth(r: nat, l: nat) returns (snapshot: array<string>)
      requires Valid() && l <= pos <= r <= events.Length
      ensures fresh(snapshot) && snapshot[..] == LinesOf(events[..][r..]) + LinesOf(events[..][l..pos])
    {
      var end := events.Length;
      snapshot := new string[(pos - l) + (end - r)](_ => "");
      var copyTo := Copy(snapshot, 0, r, end);
      assert snapshot[..copyTo] == LinesOf(events[r..end]);
      copyTo := Copy(snapshot, copyTo, l, pos);
      assert snapshot[..copyTo] == snapshot[..];
      assert events[r..end] == events[..][r..] && events[l..pos] == events[..][l..pos];
    }
  }

  /** What is right of `r` and what is between `l` and the position, found by the searches, is what is wanted. */
  lemma HalvesFrom(slots: seq<FtraceEvent>, pos: nat, log: seq<FtraceEvent>, time: u64, r: nat, l: nat)
    requires Holds(slots, pos, log) && Stamped(log)
    requires r == pos + LowerBound(Before(slots[pos..], time)) && l == LowerBound(Before(slots[..pos], time))
    ensures LinesOf(slots[r..]) + LinesOf(slots[l..pos]) == LinesOf(FromTimestamp(Retained(log, |slots|), time))
  {
    var right, left := slots[pos..], slots[..pos];
    assert right + left == Rotation(slots, pos);
    RetainedInTime(log, |slots|);
    HalvesAreFilter(right, left, time);
    assert slots[r..] == Tail(right, time) && slots[l..pos] == Tail(left, time);
    LinesOfConcat(slots[r..], slots[l..pos]);
  }

  lemma LinesOfConcat(a: seq<FtraceEvent>, b: seq<FtraceEvent>)
    ensures LinesOf(a + b) == LinesOf(a) + LinesOf(b)
  {
  }
}
