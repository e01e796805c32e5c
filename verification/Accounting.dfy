/** Nothing is lost and nothing else is made up: for any events at all, what the decoder emits is every
call that was pushed, every orphan return, and a second copy of the outermost frame for every return
that drained the stack. Calls are counted by where they begin. */
module Accounting {
  import opened Events
  import opened Decoder

  /** Where an emitted call begins. */
  datatype Origin = Origin(sym: Sym, start: u64)

  /** What is counted: all calls, or those of one origin. */
  datatype Query = All | Only(origin: Origin)

  function Hit(q: Query, o: Origin): nat { if q.All? || q.origin == o then 1 else 0 }

  function CallOrigin(tab: SymTab, e: Entry): Origin { Origin(SymOf(tab, e), e.cycle) }

  function Emissions(q: Query, spans: seq<Span>): nat {
    if spans == [] then 0
    else
      var s := spans[|spans| - 1];
      Emissions(q, spans[..|spans| - 1]) + Hit(q, Origin(s.sym, s.start))
  }

  function Open(q: Query, tab: SymTab, stack: seq<Entry>): nat {
    if stack == [] then 0
    else Open(q, tab, stack[..|stack| - 1]) + Hit(q, CallOrigin(tab, stack[|stack| - 1]))
  }

  function IsCall(q: Query, tab: SymTab, e: Entry): nat {
    if KindOf(e.address) == Call then Hit(q, CallOrigin(tab, e)) else 0
  }

  /** The calls among the events. */
  function Calls(q: Query, tab: SymTab, events: seq<Entry>): nat {
    if events == [] then 0
    else Calls(q, tab, events[..|events| - 1]) + IsCall(q, tab, events[|events| - 1])
  }

  predicate IsOrphan(st: State, e: Entry) {
    st.stack == [] && (KindOf(e.address) == OwnReturn || KindOf(e.address) == CallerReturn)
  }

  /** What an event emits that was never pushed, or was already emitted. */
  function Extra(q: Query, tab: SymTab, earliest: u64, st: State, e: Entry): nat {
    if IsOrphan(st, e) then
      Hit(q, Origin(if KindOf(e.address) == OwnReturn then SymOf(tab, e) else st.expecting, earliest))
    else if Drains(tab, st, e) then Hit(q, CallOrigin(tab, st.stack[0]))
    else 0
  }

  function Extras(q: Query, tab: SymTab, earliest: u64, events: seq<Entry>): nat {
    if events == [] then 0
    else
      var m := |events| - 1;
      Extras(q, tab, earliest, events[..m])
      + Extra(q, tab, earliest, Run(tab, earliest, INIT, events[..m]), events[m])
  }

  function DrainCount(tab: SymTab, earliest: u64, events: seq<Entry>): nat {
    if events == [] then 0
    else
      var m := |events| - 1;
      DrainCount(tab, earliest, events[..m])
      + if Drains(tab, Run(tab, earliest, INIT, events[..m]), events[m]) then 1 else 0
  }

  /** Counting calls of an origin counts those that begin there, each once. */
  lemma {:induction false} EmissionsOfOrigin(o: Origin, spans: seq<Span>)
    ensures Emissions(Only(o), spans)
         == |set i | 0 <= i < |spans| && spans[i].sym == o.sym && spans[i].start == o.start|
    decreases |spans|
  {
    var hits := set i | 0 <= i < |spans| && spans[i].sym == o.sym && spans[i].start == o.start;
    if spans != [] {
      var m := |spans| - 1;
      var front := spans[..m];
      EmissionsOfOrigin(o, front);
      var before := set i | 0 <= i < |front| && front[i].sym == o.sym && front[i].start == o.start;
      if spans[m].sym == o.sym && spans[m].start == o.start {
        assert hits == before + {m};
      } else {
        assert hits == before;
      }
    } else {
      assert hits == {};
    }
  }

  lemma {:induction false} EmissionsConcat(q: Query, a: seq<Span>, b: seq<Span>)
    ensures Emissions(q, a + b) == Emissions(q, a) + Emissions(q, b)
    decreases |b|
  {
    if b == [] {
      assert a + b == a;
    } else {
      assert (a + b)[..|a + b| - 1] == a + b[..|b| - 1];
      EmissionsConcat(q, a, b[..|b| - 1]);
    }
  }

  lemma EmissionsMore(q: Query, a: seq<Span>, s: Span)
    ensures Emissions(q, a + [s]) == Emissions(q, a) + Hit(q, Origin(s.sym, s.start))
  {
    assert (a + [s])[..|a|] == a;
  }

  lemma OpenMore(q: Query, tab: SymTab, stack: seq<Entry>, lo: nat)
    requires lo < |stack|
    ensures Open(q, tab, stack[..lo + 1]) == Open(q, tab, stack[..lo]) + Hit(q, CallOrigin(tab, stack[lo]))
  {
    assert stack[..lo + 1][..lo] == stack[..lo];
  }

  /** Closing frames turns open calls into emitted ones. */
  lemma {:induction false} CloseConserves(q: Query, tab: SymTab, stack: seq<Entry>, lo: nat, now: u64, shift: int)
    requires lo <= |stack|
    ensures Emissions(q, Close(tab, stack, lo, now, shift)) + Open(q, tab, stack[..lo]) == Open(q, tab, stack)
    decreases |stack| - lo
  {
    if lo == |stack| {
      assert stack[..lo] == stack;
    } else {
      CloseConserves(q, tab, stack, lo + 1, now, shift);
      CloseMore(tab, stack, lo + 1, now, shift);
      EmissionsMore(q, Close(tab, stack, lo + 1, now, shift), CloseOne(tab, stack[lo], now, shift + |stack| - lo - 1));
      OpenMore(q, tab, stack, lo);
    }
  }

  lemma {:induction false} FinishConserves(q: Query, tab: SymTab, stack: seq<Entry>, latest: u64, k: nat)
    requires k <= |stack|
    ensures Emissions(q, Finish(tab, stack, latest)[..k]) == Open(q, tab, stack[..k])
  {
    var spans := Finish(tab, stack, latest);
    if k > 0 {
      FinishConserves(q, tab, stack, latest, k - 1);
      OpenMore(q, tab, stack, k - 1);
      assert spans[..k] == spans[..k - 1] + [spans[k - 1]];
      EmissionsMore(q, spans[..k - 1], spans[k - 1]);
    }
  }

  lemma OwnReturnConserves(q: Query, tab: SymTab, earliest: u64, st: State, e: Entry)
    requires KindOf(e.address) == OwnReturn && st.stack != []
    ensures Emissions(q, OwnReturnSpans(tab, st.stack, e))
            + Open(q, tab, st.stack[..OwnReturnLow(tab, st.stack, e)])
         == Open(q, tab, st.stack) + Extra(q, tab, earliest, st, e)
  {
    OwnReturnCloses(tab, st.stack, e);
    CloseConserves(q, tab, st.stack, OwnReturnLow(tab, st.stack, e), e.cycle, 0);
    DrainsIff(tab, st, e);
    EmissionsMore(q, Close(tab, st.stack, 0, e.cycle, 0), CloseOne(tab, st.stack[0], e.cycle, |st.stack| - 1));
  }

  /** What was emitted, and what is still open. */
  function Known(q: Query, tab: SymTab, st: State): nat { Emissions(q, st.out) + Open(q, tab, st.stack) }

  lemma ClosingConserves(q: Query, tab: SymTab, st: State, lo: nat, now: u64, shift: int)
    requires lo <= |st.stack|
    ensures Emissions(q, st.out + Close(tab, st.stack, lo, now, shift)) + Open(q, tab, st.stack[..lo])
         == Known(q, tab, st)
  {
    CloseConserves(q, tab, st.stack, lo, now, shift);
    EmissionsConcat(q, st.out, Close(tab, st.stack, lo, now, shift));
  }

  lemma OrphanConserves(q: Query, tab: SymTab, earliest: u64, st: State, e: Entry)
    requires IsOrphan(st, e)
    ensures Known(q, tab, Step(tab, earliest, st, e)) == Known(q, tab, st) + Extra(q, tab, earliest, st, e)
  {
    var sym := if KindOf(e.address) == OwnReturn then SymOf(tab, e) else st.expecting;
    EmissionsMore(q, st.out, Span(sym, earliest, e.cycle, -(st.orphans + 1)));
  }

  lemma ReturnConserves(q: Query, tab: SymTab, earliest: u64, st: State, e: Entry)
    requires st.stack != [] && (KindOf(e.address) == OwnReturn || KindOf(e.address) == CallerReturn)
    ensures Known(q, tab, Step(tab, earliest, st, e)) == Known(q, tab, st) + Extra(q, tab, earliest, st, e)
  {
    if KindOf(e.address) == OwnReturn {
      OwnReturnConserves(q, tab, earliest, st, e);
      EmissionsConcat(q, st.out, OwnReturnSpans(tab, st.stack, e));
    } else {
      ClosingConserves(q, tab, st, CallerReturnLow(tab, st.stack, e), e.cycle, 0);
    }
  }

  lemma StepConserves(q: Query, tab: SymTab, earliest: u64, st: State, e: Entry)
    ensures Known(q, tab, Step(tab, earliest, st, e))
         == Known(q, tab, st) + IsCall(q, tab, e) + Extra(q, tab, earliest, st, e)
  {
    match KindOf(e.address)
    case Call =>
      assert (st.stack + [e])[..|st.stack|] == st.stack;
    case Catch =>
      ClosingConserves(q, tab, st, Topmost(tab, st.stack, NameOf(tab, e), true) + 1, e.cycle, 1);
    case _ =>
      if st.stack == [] {
        OrphanConserves(q, tab, earliest, st, e);
      } else {
        ReturnConserves(q, tab, earliest, st, e);
      }
  }

  lemma {:induction false} RunConserves(q: Query, tab: SymTab, earliest: u64, events: seq<Entry>)
    ensures Known(q, tab, Run(tab, earliest, INIT, events))
         == Calls(q, tab, events) + Extras(q, tab, earliest, events)
    decreases |events|
  {
    if events != [] {
      var m := |events| - 1;
      RunConserves(q, tab, earliest, events[..m]);
      StepConserves(q, tab, earliest, Run(tab, earliest, INIT, events[..m]), events[m]);
    }
  }

  /** Of every origin, as many calls are emitted as were pushed, plus the orphan returns and the outermost
  frames of drained stacks. */
  lemma EmissionsAccounted(q: Query, tab: SymTab, events: seq<Entry>, earliest: u64, latest: u64)
    ensures Emissions(q, Decode(tab, events, earliest, latest))
         == Calls(q, tab, events) + Extras(q, tab, earliest, events)
  {
    var st := Run(tab, earliest, INIT, events);
    RunConserves(q, tab, earliest, events);
    EmissionsConcat(q, st.out, Finish(tab, st.stack, latest));
    FinishConserves(q, tab, st.stack, latest, |st.stack|);
    assert st.stack[..|st.stack|] == st.stack;
    assert Finish(tab, st.stack, latest)[..|st.stack|] == Finish(tab, st.stack, latest);
  }

  lemma {:induction false} EmissionsCount(spans: seq<Span>)
    ensures Emissions(All, spans) == |spans|
    decreases |spans|
  {
    if spans != [] {
      EmissionsCount(spans[..|spans| - 1]);
    }
  }

  lemma {:induction false} ExtrasCount(tab: SymTab, earliest: u64, events: seq<Entry>)
    ensures Extras(All, tab, earliest, events)
         == Run(tab, earliest, INIT, events).orphans + DrainCount(tab, earliest, events)
    decreases |events|
  {
    if events != [] {
      ExtrasCount(tab, earliest, events[..|events| - 1]);
    }
  }

  /** The number of calls reported for a thread. */
  lemma EmissionsCounted(tab: SymTab, events: seq<Entry>, earliest: u64, latest: u64)
    ensures |Decode(tab, events, earliest, latest)|
         == Calls(All, tab, events)
            + Run(tab, earliest, INIT, events).orphans
            + DrainCount(tab, earliest, events)
  {
    EmissionsAccounted(All, tab, events, earliest, latest);
    EmissionsCount(Decode(tab, events, earliest, latest));
    ExtrasCount(tab, earliest, events);
  }
}
