/** A snapshot of whole buffers, as they are in memory: the events after the last wraparound first, the older ones
behind them, and slots never written. The reader drops and sorts; this is exactly when it recovers the order. */
module WholeBuffer {
  import opened Events
  import opened Search
  import opened Ring
  import opened TraceFile

  lemma {:induction false} AtCycleConcat(a: seq<Entry>, b: seq<Entry>, cycle: u64)
    ensures AtCycle(a + b, cycle) == AtCycle(a, cycle) + AtCycle(b, cycle)
    decreases |b|
  {
    if b == [] {
      assert a + b == a;
    } else {
      assert (a + b)[..|a + b| - 1] == a + b[..|b| - 1];
      AtCycleConcat(a, b[..|b| - 1], cycle);
    }
  }

  lemma {:induction false} AtCycleMember(es: seq<Entry>, cycle: u64)
    ensures AtCycle(es, cycle) == [] <==> forall i :: 0 <= i < |es| ==> es[i].cycle != cycle
    decreases |es|
  {
    if es != [] {
      AtCycleMember(es[..|es| - 1], cycle);
      assert forall i :: 0 <= i < |es| - 1 ==> es[i] == es[..|es| - 1][i];
    }
  }

  /** Of each cycle the same entries in the same order. */
  ghost predicate SameByCycle(a: seq<Entry>, b: seq<Entry>) { forall x: u64 :: AtCycle(a, x) == AtCycle(b, x) }

  /** Of entries in order those of the last cycle are last. */
  lemma LastIsLatest(a: seq<Entry>, b: seq<Entry>)
    requires Sorted(a) && Sorted(b) && a != [] && SameByCycle(a, b)
    ensures b != [] && b[|b| - 1].cycle >= a[|a| - 1].cycle
  {
    var x := a[|a| - 1].cycle;
    AtCycleMember(b, x);
  }

  /** Order and what there is of each cycle are all there is to entries in order. */
  lemma {:induction false} SameSorted(a: seq<Entry>, b: seq<Entry>)
    requires Sorted(a) && Sorted(b) && SameByCycle(a, b)
    ensures a == b
    decreases |a|
  {
    hide AtCycle, Sorted;
    if a == [] {
      if b != [] {
        LastIsLatest(b, a);
      }
    } else {
      LastIsLatest(a, b);
      LastIsLatest(b, a);
      var x := a[|a| - 1].cycle;
      var a0, b0 := a[..|a| - 1], b[..|b| - 1];
      LastOff(a, x);
      LastOff(b, x);
      SameEnds(AtCycle(a0, x), AtCycle(b0, x), a[|a| - 1], b[|b| - 1]);
      forall y: u64 ensures AtCycle(a0, y) == AtCycle(b0, y) {
        LastOff(a, y);
        LastOff(b, y);
      }
      FrontSorted(a);
      FrontSorted(b);
      SameSorted(a0, b0);
      assert a == a0 + [a[|a| - 1]] && b == b0 + [b[|b| - 1]];
    }
  }

  lemma SameEnds<T>(a: seq<T>, b: seq<T>, x: T, y: T)
    requires a + [x] == b + [y]
    ensures a == b && x == y
  {
    assert a == (a + [x])[..|a + [x]| - 1] && b == (b + [y])[..|b + [y]| - 1];
    assert (a + [x])[|a|] == x && (b + [y])[|b|] == y;
  }

  lemma LastOff(a: seq<Entry>, y: u64)
    requires a != []
    ensures var e, front := a[|a| - 1], AtCycle(a[..|a| - 1], y);
            AtCycle(a, y) == if e.cycle == y then front + [e] else front
  {
  }

  lemma FrontSorted(a: seq<Entry>)
    requires Sorted(a) && a != []
    ensures Sorted(a[..|a| - 1])
  {
  }

  /** The events at the cycle where the new part begins read the same whichever part comes first; in particular if
  the clock ticked at the wraparound. */
  predicate WrapTold(older: seq<Entry>, newer: seq<Entry>) {
    older != [] && newer != [] ==>
      var cycle := newer[0].cycle;
      AtCycle(newer, cycle) + AtCycle(older, cycle) == AtCycle(older, cycle) + AtCycle(newer, cycle)
  }

  lemma TickTold(older: seq<Entry>, newer: seq<Entry>)
    requires older != [] && newer != [] && Sorted(older) && older[|older| - 1].cycle < newer[0].cycle
    ensures WrapTold(older, newer)
  {
    AtCycleMember(older, newer[0].cycle);
  }

  /** At any other cycle only one part has events. */
  lemma OneSide(older: seq<Entry>, newer: seq<Entry>, x: u64)
    requires Sorted(older + newer) && older != [] && newer != [] && x != newer[0].cycle
    ensures AtCycle(older, x) == [] || AtCycle(newer, x) == []
  {
    var whole := older + newer;
    AtCycleMember(older, x);
    AtCycleMember(newer, x);
    assert whole[|older|] == newer[0];
    assert forall i :: 0 <= i < |newer| ==> whole[|older| + i] == newer[i];
    assert forall i :: 0 <= i < |older| ==> whole[i] == older[i];
  }

  /** Sorting puts the parts of a rotated sequence in order exactly if the cycle where they meet can be told. */
  lemma RotatedSorts(older: seq<Entry>, newer: seq<Entry>)
    requires Sorted(older + newer)
    ensures SortByCycle(newer + older) == older + newer <==> WrapTold(older, newer)
  {
    hide AtCycle, SortByCycle, Sorted;
    var sorted := SortByCycle(newer + older);
    SortSorts(newer + older);
    forall x: u64 ensures AtCycle(sorted, x) == AtCycle(newer, x) + AtCycle(older, x)
                       && AtCycle(older + newer, x) == AtCycle(older, x) + AtCycle(newer, x) {
      SortStable(newer + older, x);
      AtCycleConcat(newer, older, x);
      AtCycleConcat(older, newer, x);
    }
    if older == [] || newer == [] {
      assert newer + older == older + newer;
      SortedUnchanged(older + newer);
    } else if WrapTold(older, newer) {
      forall x: u64 ensures AtCycle(sorted, x) == AtCycle(older + newer, x) {
        if x != newer[0].cycle {
          OneSide(older, newer, x);
        }
      }
      SameSorted(sorted, older + newer);
    }
  }

  lemma {:induction false} NonZeroConcat(a: seq<Entry>, b: seq<Entry>)
    ensures NonZero(a + b) == NonZero(a) + NonZero(b)
    decreases |b|
  {
    if b == [] {
      assert a + b == a;
    } else {
      assert (a + b)[..|a + b| - 1] == a + b[..|b| - 1];
      NonZeroConcat(a, b[..|b| - 1]);
    }
  }

  /** What is read back of a whole buffer can be what was traced: slots never written are zero, or all were written
  and the wraparound can be told. */
  predicate ReadsBack(c: Cells)
    requires c.cursor <= |c.cells|
  {
    if c.turn == 0 then NonZero(c.cells[c.cursor..]) == [] else WrapTold(c.cells[c.cursor..], c.cells[..c.cursor])
  }

  lemma CellsTimed(c: Cells)
    requires c.Valid()
    ensures Sorted(LastOf(c.log, |c.cells|))
    ensures c.turn > 0 ==> forall i :: 0 <= i < |c.cells| ==> c.cells[i].cycle > 0
    ensures c.turn == 0 ==> LastOf(c.log, |c.cells|) == c.log == c.cells[..c.cursor]
  {
    var n := |c.cells|;
    assert c.turn == 0 ==> c.log == c.cells[..c.cursor];
  }

  /** A buffer that was never filled is read back exactly if its other slots are zero. */
  lemma YoungExactly(log: seq<Entry>, rest: seq<Entry>)
    requires Sorted(log) && forall i :: 0 <= i < |log| ==> log[i].cycle > 0
    ensures SortByCycle(NonZero(log + rest)) == log <==> NonZero(rest) == []
  {
    hide SortByCycle, NonZero, Sorted;
    NonZeroConcat(log, rest);
    NonZeroUnchanged(log);
    SortSorts(log + NonZero(rest));
    assert |multiset(SortByCycle(log + NonZero(rest)))| == |multiset(log + NonZero(rest))|;
    if NonZero(rest) == [] {
      assert log + [] == log;
      SortedUnchanged(log);
    }
  }

  /** A whole buffer is read back as the last events traced into it exactly if `ReadsBack` says so. */
  lemma WholeExactly(c: Cells)
    requires c.Valid()
    ensures c.cursor <= |c.cells|
    ensures SortByCycle(NonZero(c.cells)) == LastOf(c.log, |c.cells|) <==> ReadsBack(c)
  {
    hide SortByCycle, NonZero, Sorted, LastOf, WrapTold;
    CellsTimed(c);
    c.Chronological();
    var newer, older := c.cells[..c.cursor], c.cells[c.cursor..];
    assert c.cells == newer + older;
    if c.turn == 0 {
      YoungExactly(c.log, older);
    } else {
      NonZeroUnchanged(c.cells);
      RotatedSorts(older, newer);
    }
  }

  /** Two events of one cycle, traced into a buffer of two after another one, come back in the other order. */
  lemma TieExample()
    ensures var a, b, c := Entry(8, 1), Entry(16, 2), Entry(24, 2);
            var cells := Cells([c, b], [a, b, c], 2, 1);
            && cells.Valid() && SortByCycle(NonZero(cells.cells)) == [c, b] && LastOf(cells.log, 2) == [b, c]
  {
    var b, c := Entry(16, 2), Entry(24, 2);
    NonZeroUnchanged([c, b]);
    SortedUnchanged([c, b]);
  }
}
