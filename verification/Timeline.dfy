/** What the timeline of decoded calls promises for any sorted input, and exactly when the made-up
nanoseconds keep it free of shared endpoints. */
module Timeline {
  import opened Events
  import opened Decoder
  import opened Nesting

  /** Consecutive events are more than `d` nanoseconds apart, or merely in order when nothing is shifted. */
  ghost predicate Spaced(sc: Scale, d: nat, events: seq<Entry>) {
    forall i, j :: 0 <= i && j == i + 1 < |events| ==>
      Before(sc, At(events[i].cycle) + Ns(sc, d), At(events[j].cycle))
  }

  function StateAt(tab: SymTab, earliest: u64, events: seq<Entry>, i: nat): State
    requires i <= |events|
  {
    Run(tab, earliest, INIT, events[..i])
  }

  /** No event shifts an end by more than `d`. */
  ghost predicate ShiftsUpTo(tab: SymTab, earliest: u64, d: nat, events: seq<Entry>) {
    forall i :: 0 <= i < |events| ==> EndShift(tab, StateAt(tab, earliest, events, i), events[i]) <= d
  }

  ghost predicate NoDrains(tab: SymTab, earliest: u64, events: seq<Entry>) {
    forall i :: 0 <= i < |events| ==> !Drains(tab, StateAt(tab, earliest, events, i), events[i])
  }

  /** No later than this for everything emitted, or still open, after the events. */
  function Latest(sc: Scale, tab: SymTab, earliest: u64, events: seq<Entry>): int {
    if events == [] then At(earliest)
    else
      var m := |events| - 1;
      At(events[m].cycle) + Ns(sc, EndShift(tab, StateAt(tab, earliest, events, m), events[m]))
  }

  lemma PrefixCalm(tab: SymTab, earliest: u64, d: nat, events: seq<Entry>, m: nat)
    requires m <= |events| && NoDrains(tab, earliest, events) && ShiftsUpTo(tab, earliest, d, events)
    ensures NoDrains(tab, earliest, events[..m]) && ShiftsUpTo(tab, earliest, d, events[..m])
  {
    var before := events[..m];
    forall i | 0 <= i < m
      ensures EndShift(tab, StateAt(tab, earliest, before, i), before[i]) <= d
      ensures !Drains(tab, StateAt(tab, earliest, before, i), before[i])
    {
      assert before[..i] == events[..i] && before[i] == events[i];
      assert EndShift(tab, StateAt(tab, earliest, events, i), events[i]) <= d;
    }
  }

  /** The next event comes after everything the events before it made up. */
  lemma LatestBefore(sc: Scale, tab: SymTab, earliest: u64, d: nat, events: seq<Entry>, m: nat)
    requires sc.Valid() && Spaced(sc, d, events) && 0 < m < |events|
    requires sc.strict ==> ShiftsUpTo(tab, earliest, d, events[..m])
    ensures Before(sc, Latest(sc, tab, earliest, events[..m]), At(events[m].cycle))
  {
    hide Ns;
    var before := events[..m];
    var shift := EndShift(tab, StateAt(tab, earliest, before, m - 1), before[m - 1]);
    assert Before(sc, At(events[m - 1].cycle) + Ns(sc, d), At(events[m].cycle));
    if sc.strict {
      NsMono(sc, shift, d);
    } else {
      NsNothing(sc, shift);
      NsNothing(sc, d);
    }
  }

  lemma NsNothing(sc: Scale, shift: int)
    requires sc.Valid() && !sc.strict
    ensures Ns(sc, shift) == 0
  {
  }

  lemma {:induction false} RunKeeps(sc: Scale, tab: SymTab, earliest: u64, d: nat, events: seq<Entry>)
    requires sc.Valid() && Spaced(sc, d, events)
    requires forall i :: 0 <= i < |events| ==> earliest <= events[i].cycle
    requires sc.strict ==> NoDrains(tab, earliest, events) && ShiftsUpTo(tab, earliest, d, events)
    ensures StateInv(sc, earliest, Latest(sc, tab, earliest, events), Run(tab, earliest, INIT, events))
    decreases |events|
  {
    if events != [] {
      var m := |events| - 1;
      var before := events[..m];
      if sc.strict {
        PrefixCalm(tab, earliest, d, events, m);
      }
      assert forall i :: 0 <= i < m ==> before[i] == events[i];
      RunKeeps(sc, tab, earliest, d, before);
      var hi := At(events[m].cycle) - 1;
      if m > 0 {
        LatestBefore(sc, tab, earliest, d, events, m);
        hi := Latest(sc, tab, earliest, before);
      }
      StepKeeps(sc, tab, earliest, hi, Run(tab, earliest, INIT, before), events[m]);
    }
  }

  /** The made-up ends are those of one more closing of the whole stack, listed the other way round. */
  lemma FinishPairwise(sc: Scale, tab: SymTab, out: seq<Span>, stack: seq<Entry>, latest: u64)
    requires Pairwise(sc, out + Close(tab, stack, 0, latest, 1))
    ensures Pairwise(sc, out + Finish(tab, stack, latest))
  {
    var n := |stack|;
    var closed, finished := out + Close(tab, stack, 0, latest, 1), out + Finish(tab, stack, latest);
    forall i | 0 <= i < |finished|
      ensures finished[i] == closed[if i < |out| then i else |out| + n - 1 - (i - |out|)]
    {
    }
    forall i, j | 0 <= i < j < |finished| ensures Compatible(sc, finished[i], finished[j]) {
      var p := if i < |out| then i else |out| + n - 1 - (i - |out|);
      var q := if j < |out| then j else |out| + n - 1 - (j - |out|);
      assert Compatible(sc, closed[if p < q then p else q], closed[if p < q then q else p]);
    }
  }

  lemma FinishWithin(sc: Scale, tab: SymTab, floor: int, hi: int, out: seq<Span>, stack: seq<Entry>, latest: u64)
    requires Within(sc, floor, hi, out + Close(tab, stack, 0, latest, 1))
    ensures Within(sc, floor, hi, out + Finish(tab, stack, latest))
  {
    var n := |stack|;
    var closed, finished := out + Close(tab, stack, 0, latest, 1), out + Finish(tab, stack, latest);
    forall i | 0 <= i < |finished|
      ensures finished[i] == closed[if i < |out| then i else |out| + n - 1 - (i - |out|)]
    {
    }
  }

  lemma FinishKeeps(sc: Scale, tab: SymTab, earliest: u64, hi: int, st: State, latest: u64)
    requires sc.Valid() && StateInv(sc, earliest, hi, st)
    requires Before(sc, hi, At(latest) + Ns(sc, 1))
    ensures var out := st.out + Finish(tab, st.stack, latest);
            && Pairwise(sc, out)
            && Within(sc, Floor(sc, earliest, st.orphans), At(latest) + Ns(sc, |st.stack| + 1), out)
  {
    var floor := Floor(sc, earliest, st.orphans);
    var out := st.out + Close(tab, st.stack, 0, latest, 1);
    CloseKeeps(sc, tab, floor, hi, st.out, st.stack, 0, latest, 1);
    NsMono(sc, 1, |st.stack| + 1);
    NsMono(sc, |st.stack|, |st.stack| + 1);
    assert ClosedBy(sc, hi, |st.stack|, 0, latest, 1) <= At(latest) + Ns(sc, |st.stack| + 1);
    InvWeaken(sc, floor, ClosedBy(sc, hi, |st.stack|, 0, latest, 1), At(latest) + Ns(sc, |st.stack| + 1), out, []);
    FinishPairwise(sc, tab, st.out, st.stack, latest);
    FinishWithin(sc, tab, floor, At(latest) + Ns(sc, |st.stack| + 1), st.out, st.stack, latest);
  }

  /** Unshifted calls, as the plain reader sees them. */
  predicate NestedOrDisjoint(a: Span, b: Span) {
    || a.end <= b.start
    || b.end <= a.start
    || (b.start <= a.start && a.end <= b.end)
    || (a.start <= b.start && b.end <= a.end)
  }

  /** Neither begins within the other and ends after it. */
  lemma NeverCross(a: Span, b: Span)
    requires a.start <= a.end && b.start <= b.end
    ensures NestedOrDisjoint(a, b) <==> !(a.start < b.start < a.end < b.end) && !(b.start < a.start < b.end < a.end)
  {
  }

  /** For any sorted events, however malformed, decoded calls are nested or disjoint, and lie between the
  earliest and the latest cycle. */
  lemma Laminar(tab: SymTab, events: seq<Entry>, earliest: u64, latest: u64)
    requires Sorted(events)
    requires forall i :: 0 <= i < |events| ==> earliest <= events[i].cycle <= latest
    ensures var out := Decode(tab, events, earliest, latest);
            && (forall i, j :: 0 <= i < j < |out| ==> NestedOrDisjoint(out[i], out[j]))
            && forall i :: 0 <= i < |out| ==> earliest <= out[i].start <= out[i].end <= latest
  {
    var st := Run(tab, earliest, INIT, events);
    var out := Decode(tab, events, earliest, latest);
    NoShift();
    RunKeeps(UNSHIFTED, tab, earliest, 0, events);
    if events == [] {
      assert out == [];
    } else {
      FinishKeeps(UNSHIFTED, tab, earliest, Latest(UNSHIFTED, tab, earliest, events), st, latest);
      forall i, j | 0 <= i < j < |out| ensures NestedOrDisjoint(out[i], out[j]) {
        assert Compatible(UNSHIFTED, out[i], out[j]);
      }
    }
  }

  lemma NoShift()
    ensures forall shift: int :: Ns(UNSHIFTED, shift) == 0
  {
  }

  // The made-up nanoseconds.

  /** All endpoints differ, and calls are strictly nested or strictly apart. */
  ghost predicate Strict(sc: Scale, spans: seq<Span>) {
    && Pairwise(sc, spans)
    && forall i :: 0 <= i < |spans| ==> Start(sc, spans[i]) < End(sc, spans[i])
  }

  /** The last event made up ends after itself, where calls still open get theirs. */
  ghost predicate Collides(tab: SymTab, events: seq<Entry>, earliest: u64, latest: u64) {
    && events != []
    && latest == events[|events| - 1].cycle
    && EndShift(tab, StateAt(tab, earliest, events, |events| - 1), events[|events| - 1]) > 0
    && Run(tab, earliest, INIT, events).stack != []
  }

  /** With events far enough apart for what they close, the timeline is strictly nested exactly when no
  return drains the stack and the last event does not make up ends while calls are open. */
  lemma StrictExactly(tab: SymTab, events: seq<Entry>, earliest: u64, latest: u64, freq: nat, d: nat)
    requires freq > 0
    requires Spaced(Scale(true, freq), d, events) && ShiftsUpTo(tab, earliest, d, events)
    requires forall i :: 0 <= i < |events| ==> earliest <= events[i].cycle
    requires events != [] ==>
               var last := events[|events| - 1].cycle;
               latest == last || Before(Scale(true, freq), At(last) + Ns(Scale(true, freq), d), At(latest))
    ensures Strict(Scale(true, freq), Decode(tab, events, earliest, latest))
       <==> NoDrains(tab, earliest, events) && !Collides(tab, events, earliest, latest)
  {
    hide Ns, Strict, Decode, Collides, Spaced, ShiftsUpTo, Sorted, Before;
    var sc := Scale(true, freq);
    if events == [] {
      NothingStrict(sc, tab, earliest, latest);
    } else {
      SpacedSorted(sc, d, events);
      AllBefore(sc, d, events, latest);
      if !NoDrains(tab, earliest, events) {
        var i :| 0 <= i < |events| && Drains(tab, StateAt(tab, earliest, events, i), events[i]);
        DrainNotStrict(sc, tab, events, earliest, latest, i);
      } else if Collides(tab, events, earliest, latest) {
        CollisionNotStrict(sc, tab, events, earliest, latest);
      } else {
        CalmStrict(sc, tab, events, earliest, latest, d);
      }
    }
  }

  lemma NothingStrict(sc: Scale, tab: SymTab, earliest: u64, latest: u64)
    ensures Strict(sc, Decode(tab, [], earliest, latest)) && !Collides(tab, [], earliest, latest)
  {
  }

  lemma AllBefore(sc: Scale, d: nat, events: seq<Entry>, latest: u64)
    requires Sorted(events) && events != []
    requires var last := events[|events| - 1].cycle; latest == last || Before(sc, At(last) + Ns(sc, d), At(latest))
    ensures forall k :: 0 <= k < |events| ==> events[k].cycle <= latest
  {
    NsMono(sc, 0, d);
    NsStep(sc, 0);
  }

  lemma {:induction false} SpacedFrom(sc: Scale, d: nat, events: seq<Entry>, i: nat, j: nat)
    requires Spaced(sc, d, events) && i < j < |events|
    ensures events[i].cycle <= events[j].cycle
    decreases j
  {
    NsMono(sc, 0, d);
    NsStep(sc, 0);
    assert Before(sc, At(events[j - 1].cycle) + Ns(sc, d), At(events[j].cycle));
    if i < j - 1 {
      SpacedFrom(sc, d, events, i, j - 1);
    }
  }

  lemma SpacedSorted(sc: Scale, d: nat, events: seq<Entry>)
    requires Spaced(sc, d, events)
    ensures Sorted(events)
  {
    forall i, j | 0 <= i < j < |events| ensures events[i].cycle <= events[j].cycle {
      SpacedFrom(sc, d, events, i, j);
    }
  }

  lemma CalmStrict(sc: Scale, tab: SymTab, events: seq<Entry>, earliest: u64, latest: u64, d: nat)
    requires sc.Valid() && sc.strict && events != []
    requires Spaced(sc, d, events) && ShiftsUpTo(tab, earliest, d, events)
    requires forall i :: 0 <= i < |events| ==> earliest <= events[i].cycle
    requires var last := events[|events| - 1].cycle;
             latest == last || Before(sc, At(last) + Ns(sc, d), At(latest))
    requires NoDrains(tab, earliest, events) && !Collides(tab, events, earliest, latest)
    ensures Strict(sc, Decode(tab, events, earliest, latest))
  {
    var m := |events| - 1;
    var st := Run(tab, earliest, INIT, events);
    var shift := EndShift(tab, StateAt(tab, earliest, events, m), events[m]);
    RunKeeps(sc, tab, earliest, d, events);
    NsStep(sc, 0);
    if st.stack == [] {
      assert st.out + Finish(tab, st.stack, latest) == st.out;
    } else {
      NsMono(sc, shift, d);
      FinishKeeps(sc, tab, earliest, Latest(sc, tab, earliest, events), st, latest);
    }
  }

  /** What has been emitted stays. */
  lemma {:induction false} OutGrows(tab: SymTab, earliest: u64, events: seq<Entry>, i: nat)
    requires i <= |events|
    ensures StateAt(tab, earliest, events, i).out <= Run(tab, earliest, INIT, events).out
    decreases |events|
  {
    if i == |events| {
      assert events[..i] == events;
    } else {
      var m := |events| - 1;
      OutGrows(tab, earliest, events[..m], i);
      assert events[..m][..i] == events[..i];
      StepGrows(tab, earliest, Run(tab, earliest, INIT, events[..m]), events[m]);
    }
  }

  lemma StepGrows(tab: SymTab, earliest: u64, st: State, e: Entry)
    ensures st.out <= Step(tab, earliest, st, e).out
  {
  }

  /** Two calls that end together cannot be told apart by nesting. */
  lemma SameEndIncompatible(sc: Scale, a: Span, b: Span)
    requires sc.strict && End(sc, a) == End(sc, b)
    requires Start(sc, a) <= End(sc, a) && Start(sc, b) <= End(sc, b)
    ensures !Compatible(sc, a, b)
  {
  }

  lemma StartBeforeEnd(sc: Scale, s: Span)
    requires s.start <= s.end
    ensures Start(sc, s) <= At(s.start) <= At(s.end) <= End(sc, s)
  {
    NsStep(sc, 0);
    NsMono(sc, if s.shift < 0 then s.shift else 0, 0);
    NsMono(sc, 0, if s.shift > 0 then s.shift else 0);
  }

  lemma DrainNotStrict(sc: Scale, tab: SymTab, events: seq<Entry>, earliest: u64, latest: u64, i: nat)
    requires sc.strict && Sorted(events) && i < |events|
    requires forall k :: 0 <= k < |events| ==> earliest <= events[k].cycle <= latest
    requires Drains(tab, StateAt(tab, earliest, events, i), events[i])
    ensures !Strict(sc, Decode(tab, events, earliest, latest))
  {
    var st := StateAt(tab, earliest, events, i);
    var next := StateAt(tab, earliest, events, i + 1);
    assert events[..i + 1][..i] == events[..i];
    var k := DrainDuplicates(tab, earliest, st, events[i]);
    OutGrows(tab, earliest, events, i + 1);
    Laminar(tab, events, earliest, latest);
    var out := Decode(tab, events, earliest, latest);
    assert out[k] == next.out[k] == next.out[k + 1] == out[k + 1];
    StartBeforeEnd(sc, out[k]);
    SameEndIncompatible(sc, out[k], out[k + 1]);
  }

  /** A drained stack's outermost frame is emitted twice in a row, shift and all. */
  lemma DrainDuplicates(tab: SymTab, earliest: u64, st: State, e: Entry) returns (k: nat)
    requires Drains(tab, st, e)
    ensures k == |st.out| + |st.stack| - 1
    ensures var out := Step(tab, earliest, st, e).out;
            |out| == k + 2 && out[k] == out[k + 1] == CloseOne(tab, st.stack[0], e.cycle, |st.stack| - 1)
  {
    k := |st.out| + |st.stack| - 1;
    DrainsIff(tab, st, e);
    OwnReturnCloses(tab, st.stack, e);
  }

  /** An event that shifts ends gives one of them the first nanosecond. */
  lemma ShiftedSpan(tab: SymTab, earliest: u64, st: State, e: Entry) returns (k: nat)
    requires EndShift(tab, st, e) > 0
    ensures var out := Step(tab, earliest, st, e).out;
            k < |out| && out[k].end == e.cycle && out[k].shift == 1
  {
    match KindOf(e.address)
    case Call =>
    case Catch => k := |st.out|;
    case OwnReturn =>
      k := |st.out| + 1;
      OwnReturnCloses(tab, st.stack, e);
    case CallerReturn => k := |st.out| + 1;
  }

  lemma CollisionNotStrict(sc: Scale, tab: SymTab, events: seq<Entry>, earliest: u64, latest: u64)
    requires sc.strict && Sorted(events)
    requires forall k :: 0 <= k < |events| ==> earliest <= events[k].cycle <= latest
    requires Collides(tab, events, earliest, latest)
    ensures !Strict(sc, Decode(tab, events, earliest, latest))
  {
    var m := |events| - 1;
    var st := Run(tab, earliest, INIT, events);
    var k := ShiftedSpan(tab, earliest, StateAt(tab, earliest, events, m), events[m]);
    var out := Decode(tab, events, earliest, latest);
    var j := |out| - 1;
    assert out[k] == st.out[k];
    assert out[j] == CloseOne(tab, st.stack[|st.stack| - 1], latest, 1);
    Laminar(tab, events, earliest, latest);
    StartBeforeEnd(sc, out[k]);
    StartBeforeEnd(sc, out[j]);
    SameEndIncompatible(sc, out[k], out[j]);
  }

  // The least inputs that share endpoints.

  const F: Sym := Sym("f", 8)
  const G: Sym := Sym("g", 16)
  const TAB: SymTab := map[8 := F, 16 := G]

  /** One step from the events before it. */
  lemma RunLast(tab: SymTab, earliest: u64, front: seq<Entry>, e: Entry, st: State)
    requires Run(tab, earliest, INIT, front) == st
    ensures Run(tab, earliest, INIT, front + [e]) == Step(tab, earliest, st, e)
  {
    RunMore(tab, earliest, INIT, front, e);
  }

  /** A call of f and a return of g: f is emitted twice. */
  lemma DrainExample()
    ensures Decode(TAB, [Entry(Word(8, Call, false), 1), Entry(Word(16, OwnReturn, false), 2)], 1, 2)
         == [Span(F, 1, 2, 0), Span(F, 1, 2, 0)]
  {
    WordRoundTrip(8, Call, false);
    WordRoundTrip(16, OwnReturn, false);
    var call, ret := Entry(Word(8, Call, false), 1), Entry(Word(16, OwnReturn, false), 2);
    assert Run(TAB, 1, INIT, []) == INIT;
    RunLast(TAB, 1, [], call, INIT);
    assert [] + [call] == [call];
    var st := Step(TAB, 1, INIT, call);
    RunLast(TAB, 1, [call], ret, st);
    assert st == INIT.(stack := [call]);
    assert [call] + [ret] == [call, ret];
    assert Topmost(TAB, [call], "g", false) == -1;
    assert Step(TAB, 1, st, ret).out == [Span(F, 1, 2, 0), Span(F, 1, 2, 0)];
  }

  /** f calls g, which throws into f, and nothing follows: both calls end one nanosecond after the catch. */
  lemma CollisionExample()
    ensures Decode(TAB, [Entry(Word(8, Call, false), 1), Entry(Word(16, Call, false), 2),
                         Entry(Word(8, Catch, false), 9)], 1, 9)
         == [Span(G, 2, 9, 1), Span(F, 1, 9, 1)]
  {
    WordRoundTrip(8, Call, false);
    WordRoundTrip(16, Call, false);
    WordRoundTrip(8, Catch, false);
    var f, g := Entry(Word(8, Call, false), 1), Entry(Word(16, Call, false), 2);
    var caught := Entry(Word(8, Catch, false), 9);
    assert Run(TAB, 1, INIT, []) == INIT;
    RunLast(TAB, 1, [], f, INIT);
    assert [] + [f] == [f];
    RunLast(TAB, 1, [f], g, INIT.(stack := [f]));
    assert [f] + [g] == [f, g];
    var st := INIT.(stack := [f, g]);
    RunLast(TAB, 1, [f, g], caught, st);
    assert [f, g] + [caught] == [f, g, caught];
    TopmostUnique(TAB, [f, g], "f", true, 0);
    assert Step(TAB, 1, st, caught) == State([f], UNKNOWN_SYM, 0, [Span(G, 2, 9, 1)]);
  }
}
