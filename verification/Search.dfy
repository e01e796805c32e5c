/** The binary search of `std::lower_bound` (libstdc++'s halving loop), and the event order it is given. */
module Search {
  import opened Events

  datatype Option<T> = None | Some(value: T)

  /** The search sees its range only through "is this element ordered before the key?". */
  function Probe(less: seq<bool>, first: nat, len: nat): (p: nat)
    requires first + len <= |less|
    ensures first <= p <= first + len
    decreases len
  {
    if len == 0 then first
    else
      var half := len / 2;
      if less[first + half] then Probe(less, first + half + 1, len - half - 1)
      else Probe(less, first, half)
  }

  function LowerBound(less: seq<bool>): nat { Probe(less, 0, |less|) }

  /** One turn of the loop. */
  lemma ProbeStep(less: seq<bool>, first: nat, len: nat, right: bool, first': nat, len': nat)
    requires first + len <= |less| && len > 0 && right == less[first + len / 2]
    requires first' == (if right then first + len / 2 + 1 else first)
    requires len' == if right then len - len / 2 - 1 else len / 2
    ensures Probe(less, first', len') == Probe(less, first, len)
  {
  }

  /** On a range that answers yes up to `q` and no from there, the search finds `q`. */
  lemma {:induction false} ProbePartitioned(less: seq<bool>, first: nat, len: nat, q: nat)
    requires first + len <= |less| && first <= q <= first + len
    requires forall i :: first <= i < q ==> less[i]
    requires forall i :: q <= i < first + len ==> !less[i]
    ensures Probe(less, first, len) == q
    decreases len
  {
    if len > 0 {
      var half := len / 2;
      if less[first + half] {
        ProbePartitioned(less, first + half + 1, len - half - 1, q);
      } else {
        ProbePartitioned(less, first, half, q);
      }
    }
  }

  // The order given to the search for the earliest event after a time.

  /** Events recorded after the pause come before the rest. */
  predicate Rotated(pause: u64, c1: u64, c2: u64) {
    if c1 > pause && c2 <= pause then true
    else if c2 > pause && c1 <= pause then false
    else c1 < c2
  }

  predicate Incomparable(pause: u64, c1: u64, c2: u64) { !Rotated(pause, c1, c2) && !Rotated(pause, c2, c1) }

  /** The order is a strict weak order, as the search requires. */
  lemma RotatedStrictWeak(pause: u64, a: u64, b: u64, c: u64)
    ensures !Rotated(pause, a, a)
    ensures Rotated(pause, a, b) && Rotated(pause, b, c) ==> Rotated(pause, a, c)
    ensures Incomparable(pause, a, b) && Incomparable(pause, b, c) ==> Incomparable(pause, a, c)
    ensures Incomparable(pause, a, b) <==> a == b
  {
  }

  function Answers(s: seq<Entry>, pause: u64, time: u64): (less: seq<bool>)
    ensures |less| == |s|
    ensures forall i :: 0 <= i < |s| ==> less[i] == Rotated(pause, s[i].cycle, time)
  {
    seq(|s|, i requires 0 <= i < |s| => Rotated(pause, s[i].cycle, time))
  }

  /** How many of the events are older than `time`: for sorted events, where those that are not begin. */
  function Older(s: seq<Entry>, time: u64): (n: nat)
    ensures n <= |s|
  {
    if s == [] then 0 else Older(s[..|s| - 1], time) + if s[|s| - 1].cycle < time then 1 else 0
  }

  /** How many events from before the pause the search takes for too old: none when asked for the future. */
  function TooOld(s: seq<Entry>, time: u64, pause: u64): (n: nat)
    ensures n <= |s|
  {
    if time <= pause then Older(s, time) else 0
  }

  /** The events at `time` or later. */
  function FromTime(s: seq<Entry>, time: u64): seq<Entry> {
    if s == [] then []
    else FromTime(s[..|s| - 1], time) + if s[|s| - 1].cycle >= time then [s[|s| - 1]] else []
  }

  lemma {:induction false} AllOlder(s: seq<Entry>, time: u64)
    requires forall i :: 0 <= i < |s| ==> s[i].cycle < time
    ensures Older(s, time) == |s| && FromTime(s, time) == []
    decreases |s|
  {
    if s != [] {
      AllOlder(s[..|s| - 1], time);
    }
  }

  lemma SortedFront(s: seq<Entry>)
    requires Sorted(s) && s != []
    ensures Sorted(s[..|s| - 1])
    ensures forall i :: 0 <= i < |s| ==> s[i].cycle <= s[|s| - 1].cycle
  {
  }

  lemma {:induction false} OlderSplits(s: seq<Entry>, time: u64)
    requires Sorted(s)
    ensures forall i :: 0 <= i < Older(s, time) ==> s[i].cycle < time
    ensures forall i :: Older(s, time) <= i < |s| ==> s[i].cycle >= time
    ensures FromTime(s, time) == s[Older(s, time)..]
    decreases |s|
  {
    hide Sorted;
    if s != [] {
      var m := |s| - 1;
      SortedFront(s);
      if s[m].cycle < time {
        AllOlder(s, time);
      } else {
        OlderSplits(s[..m], time);
        assert s[Older(s, time)..] == s[..m][Older(s, time)..] + [s[m]];
      }
    }
  }

  lemma {:induction false} FromTimeConcat(a: seq<Entry>, b: seq<Entry>, time: u64)
    ensures FromTime(a + b, time) == FromTime(a, time) + FromTime(b, time)
    decreases |b|
  {
    if b == [] {
      assert a + b == a;
    } else {
      assert (a + b)[..|a + b| - 1] == a + b[..|b| - 1];
      FromTimeConcat(a, b[..|b| - 1], time);
    }
  }

  ghost predicate UpTo(s: seq<Entry>, pause: u64) { forall i :: 0 <= i < |s| ==> s[i].cycle <= pause }

  ghost predicate LaterThan(s: seq<Entry>, pause: u64) { forall i :: 0 <= i < |s| ==> s[i].cycle > pause }

  /** Late events at the beginning of a range do no harm: the search finds the first event before the
  pause that is not older than `time`. */
  lemma LateFirstFound(late: seq<Entry>, before: seq<Entry>, pause: u64, time: u64)
    requires Sorted(before) && UpTo(before, pause) && LaterThan(late, pause) && time <= pause
    ensures LowerBound(Answers(late + before, pause, time)) == |late| + Older(before, time)
  {
    var less := Answers(late + before, pause, time);
    OlderSplits(before, time);
    forall i | 0 <= i < |late| + Older(before, time) ensures less[i] {
      assert i >= |late| ==> (late + before)[i] == before[i - |late|];
    }
    forall i | |late| + Older(before, time) <= i < |less| ensures !less[i] {
      assert (late + before)[i] == before[i - |late|];
    }
    ProbePartitioned(less, 0, |less|, |late| + Older(before, time));
  }

  /** Asked for a time after the pause, the search takes every event before the pause for later. */
  lemma FutureFound(before: seq<Entry>, pause: u64, time: u64)
    requires UpTo(before, pause) && time > pause
    ensures LowerBound(Answers(before, pause, time)) == 0
  {
    ProbePartitioned(Answers(before, pause, time), 0, |before|, 0);
  }

  // An arbitrary event at the beginning of a range.

  /** What the search makes of a range that answers yes up to `q`, its first element aside. */
  lemma {:induction false} ProbeAnyFirst(less: seq<bool>, first: nat, len: nat, q: nat)
    requires first + len <= |less| && first < q <= first + len
    requires forall i :: first < i < q ==> less[i]
    requires forall i :: q <= i < first + len ==> !less[i]
    ensures Probe(less, first, len) == if q == first + 1 && !less[first] then first else q
    decreases len
  {
    var half := len / 2;
    if less[first + half] {
      ProbePartitioned(less, first + half + 1, len - half - 1, q);
    } else if half > 0 {
      ProbeAnyFirst(less, first, half, q);
    }
  }

  /** Whatever the first entry is, the search finds the first of the others that is not older than `time`,
  or takes in the first entry too when it takes all the others; asked for the future, it takes all others. */
  lemma AnyFirstFound(x: Entry, rest: seq<Entry>, pause: u64, time: u64)
    requires Sorted(rest) && UpTo(rest, pause)
    ensures LowerBound(Answers([x] + rest, pause, time))
         == if TooOld(rest, time, pause) == 0 && !Rotated(pause, x.cycle, time) then 0
            else 1 + TooOld(rest, time, pause)
  {
    var less := Answers([x] + rest, pause, time);
    var q := 1 + TooOld(rest, time, pause);
    OlderSplits(rest, time);
    forall i | 0 < i < |less| ensures less[i] <==> i < q {
      assert ([x] + rest)[i] == rest[i - 1];
    }
    ProbeAnyFirst(less, 0, |less|, q);
  }

  // A late event at the end of a range instead.

  /** Halving a range of `n`, going right each time, comes down to two elements. */
  predicate HalvesToTwo(n: nat) { n == 2 || (n > 2 && HalvesToTwo((n - 1) / 2)) }

  /** What the search makes of a range that answers yes up to `q` and once more at its end. */
  lemma {:induction false} ProbeLateLast(less: seq<bool>, first: nat, len: nat, q: nat)
    requires len > 0 && first + len == |less| && first <= q < |less|
    requires forall i :: first <= i < |less| ==> (less[i] <==> i < q || i == |less| - 1)
    ensures Probe(less, first, len) == if q == |less| - 1 || (q == |less| - 2 && HalvesToTwo(len)) then |less| else q
    decreases len
  {
    var half := len / 2;
    var mid := first + half;
    if less[mid] {
      if mid < |less| - 1 {
        assert len - half - 1 == (len - 1) / 2;
        ProbeLateLast(less, mid + 1, len - half - 1, q);
        assert q == |less| - 2 ==> len > 2;
      }
    } else {
      ProbePartitioned(less, first, half, q);
      assert q == |less| - 2 ==> len == 3 || len == 4;
      assert !HalvesToTwo(1) && !HalvesToTwo(3) && !HalvesToTwo(4);
    }
  }

  lemma LateLastPast(before: seq<Entry>, late: Entry, pause: u64, time: u64)
    requires Sorted(before) && UpTo(before, pause) && late.cycle > pause && time <= pause
    ensures LowerBound(Answers(before + [late], pause, time))
         == if || Older(before, time) == |before|
               || (Older(before, time) == |before| - 1 && HalvesToTwo(|before| + 1)) then |before| + 1
            else Older(before, time)
  {
    var less := Answers(before + [late], pause, time);
    OlderSplits(before, time);
    ProbeLateLast(less, 0, |less|, Older(before, time));
  }

  lemma LateLastFuture(before: seq<Entry>, late: Entry, pause: u64, time: u64)
    requires UpTo(before, pause) && late.cycle > pause && time > pause
    ensures LowerBound(Answers(before + [late], pause, time))
         == if |before| <= 1 && late.cycle < time then |before| + 1 else 0
  {
    var less := Answers(before + [late], pause, time);
    var n := |less|;
    assert forall i :: 0 <= i < |before| ==> !less[i];
    if n > 1 && (n > 2 || late.cycle >= time) {
      ProbePartitioned(less, 0, n / 2, 0);
    }
  }

  /** With a late event at its end, nothing is found of a range in which nothing is wanted; nor of one in which
  just the newest event before the pause is wanted, if the length is such that halving comes down to these
  two; nor, for a time after the late event, if at most one event comes before it. Otherwise the late event
  does no harm. */
  predicate LateLastMisses(before: seq<Entry>, late: Entry, pause: u64, time: u64) {
    if time <= pause then
      || Older(before, time) == |before|
      || (Older(before, time) == |before| - 1 && HalvesToTwo(|before| + 1))
    else |before| <= 1 && late.cycle < time
  }

  lemma LateLastFound(before: seq<Entry>, late: Entry, pause: u64, time: u64)
    requires Sorted(before) && UpTo(before, pause) && late.cycle > pause
    ensures LowerBound(Answers(before + [late], pause, time))
         == if LateLastMisses(before, late, pause, time) then |before| + 1 else TooOld(before, time, pause)
  {
    if time <= pause {
      LateLastPast(before, late, pause, time);
    } else {
      LateLastFuture(before, late, pause, time);
    }
  }

  /** The least such range: the one event before the pause is lost. */
  lemma LateLastLoses()
    ensures LowerBound(Answers([Entry(1, 10), Entry(2, 20)], 15, 5)) == 2
    ensures FromTime([Entry(1, 10)], 5) == [Entry(1, 10)]
  {
    LateLastFound([Entry(1, 10)], Entry(2, 20), 15, 5);
    assert [Entry(1, 10)][..0] == [];
    assert [Entry(1, 10)] + [Entry(2, 20)] == [Entry(1, 10), Entry(2, 20)];
  }
}
