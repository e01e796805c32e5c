/** What the trace decoder computes, stated over whole stacks.

The loops that pop frames one at a time are in `Converter`; here every pop is "down to the topmost
frame that stops it", which is what those loops are proved to do. */
module Decoder {
  import opened Events

  /** One emitted function call: `shift` is the made-up displacement in nanoseconds, of the end when
  positive and of the start when negative. */
  datatype Span = Span(sym: Sym, start: u64, end: u64, shift: int)

  datatype State = State(
    stack: seq<Entry>,
    expecting: Sym,   // the function the last caller-address return went to
    orphans: nat,
    out: seq<Span>)

  const INIT: State := State([], UNKNOWN_SYM, 0, [])

  /** The frame ends a pop loop that looks for `name`; a catch also stops at frames that would have
  logged their own return. */
  predicate Stops(tab: SymTab, e: Entry, name: string, flagStops: bool) {
    (flagStops && ReturnsUponThrow(e.address)) || NameOf(tab, e) == name
  }

  /** Index of the topmost stopping frame, -1 if none. */
  function Topmost(tab: SymTab, stack: seq<Entry>, name: string, flagStops: bool): (i: int)
    ensures -1 <= i < |stack|
    ensures i >= 0 ==> Stops(tab, stack[i], name, flagStops)
    ensures forall j :: i < j < |stack| ==> !Stops(tab, stack[j], name, flagStops)
  {
    if stack == [] then -1
    else if Stops(tab, stack[|stack| - 1], name, flagStops) then |stack| - 1
    else Topmost(tab, stack[..|stack| - 1], name, flagStops)
  }

  /** The spans of frames `lo..` closed at `now`, top of the stack first, each one nanosecond after the other. */
  function Close(tab: SymTab, stack: seq<Entry>, lo: nat, now: u64, firstShift: int): (spans: seq<Span>)
    requires lo <= |stack|
    ensures |spans| == |stack| - lo
    ensures forall k {:trigger spans[k]} :: 0 <= k < |spans| ==>
              spans[k] == CloseOne(tab, stack[|stack| - 1 - k], now, firstShift + k)
  {
    seq(|stack| - lo, k requires 0 <= k < |stack| - lo =>
      CloseOne(tab, stack[|stack| - 1 - k], now, firstShift + k))
  }

  function CloseOne(tab: SymTab, e: Entry, now: u64, shift: int): Span {
    Span(SymOf(tab, e), e.cycle, now, shift)
  }

  function Orphan(st: State, sym: Sym, earliest: u64, now: u64): State {
    st.(orphans := st.orphans + 1, out := st.out + [Span(sym, earliest, now, -(st.orphans + 1))])
  }

  function Step(tab: SymTab, earliest: u64, st: State, e: Entry): State {
    match KindOf(e.address)
    case Call => st.(stack := st.stack + [e])
    case Catch => CatchStep(tab, st, e)
    case OwnReturn =>
      if st.stack == [] then Orphan(st, SymOf(tab, e), earliest, e.cycle)
      else OwnReturnStep(tab, st, e)
    case CallerReturn =>
      if st.stack == [] then Orphan(st, st.expecting, earliest, e.cycle).(expecting := SymOf(tab, e))
      else CallerReturnStep(tab, st, e)
  }

  /** Everything above the catcher was unwound. */
  function CatchStep(tab: SymTab, st: State, e: Entry): State {
    var lo := Topmost(tab, st.stack, NameOf(tab, e), true) + 1;
    st.(stack := st.stack[..lo], out := st.out + Close(tab, st.stack, lo, e.cycle, 1))
  }

  /** The topmost frame of the returning function is closed together with what is above it. */
  function OwnReturnStep(tab: SymTab, st: State, e: Entry): State
    requires st.stack != []
  {
    st.(stack := st.stack[..OwnReturnLow(tab, st.stack, e)], out := st.out + OwnReturnSpans(tab, st.stack, e))
  }

  function OwnReturnLow(tab: SymTab, stack: seq<Entry>, e: Entry): (lo: nat)
    ensures lo <= |stack|
  {
    var i := Topmost(tab, stack, NameOf(tab, e), false);
    if i >= 0 then i else 0
  }

  /** How far the frames above are closed: everything, if the name is nowhere on the stack. */
  function OwnReturnEmptied(tab: SymTab, stack: seq<Entry>, e: Entry): (lo: nat)
    ensures lo <= |stack|
  {
    var i := Topmost(tab, stack, NameOf(tab, e), false);
    if i >= 0 then i + 1 else 0
  }

  /** A name that is nowhere on the stack drains it, and then the outermost frame is emitted a second time. */
  function OwnReturnSpans(tab: SymTab, stack: seq<Entry>, e: Entry): seq<Span>
    requires stack != []
  {
    var m := OwnReturnLow(tab, stack, e);
    Close(tab, stack, OwnReturnEmptied(tab, stack, e), e.cycle, 0)
    + [CloseOne(tab, stack[m], e.cycle, |stack| - 1 - m)]
  }

  /** The top frame returned into the named caller: frames between it and that caller are closed too,
  if the caller is on the stack at all. */
  function CallerReturnStep(tab: SymTab, st: State, e: Entry): State
    requires st.stack != []
  {
    var lo := CallerReturnLow(tab, st.stack, e);
    st.(stack := st.stack[..lo],
        expecting := SymOf(tab, e),
        out := st.out + Close(tab, st.stack, lo, e.cycle, 0))
  }

  function CallerReturnLow(tab: SymTab, stack: seq<Entry>, e: Entry): (lo: nat)
    requires stack != []
    ensures lo < |stack|
  {
    var n := |stack|;
    var i := Topmost(tab, stack[..n - 1], NameOf(tab, e), false);
    if i >= 0 then i + 1 else n - 1
  }

  function Run(tab: SymTab, earliest: u64, st: State, events: seq<Entry>): State {
    if events == [] then st
    else
      var m := |events| - 1;
      Step(tab, earliest, Run(tab, earliest, st, events[..m]), events[m])
  }

  /** Frames still open at the end get a made-up return after the last event, the outermost last. */
  function Finish(tab: SymTab, stack: seq<Entry>, latest: u64): (spans: seq<Span>)
    ensures |spans| == |stack|
    ensures forall k {:trigger spans[k]} :: 0 <= k < |spans| ==>
              spans[k] == CloseOne(tab, stack[k], latest, |stack| - k)
  {
    seq(|stack|, k requires 0 <= k < |stack| => CloseOne(tab, stack[k], latest, |stack| - k))
  }

  function Decode(tab: SymTab, events: seq<Entry>, earliest: u64, latest: u64): seq<Span> {
    var st := Run(tab, earliest, INIT, events);
    st.out + Finish(tab, st.stack, latest)
  }

  /** The event closes frames that its function's return does not account for, or would if it could. */
  predicate Mismatch(tab: SymTab, st: State, e: Entry) {
    var n := |st.stack|;
    match KindOf(e.address)
    case OwnReturn => n > 0 && NameOf(tab, st.stack[n - 1]) != NameOf(tab, e)
    case CallerReturn =>
      && n > 1
      && NameOf(tab, st.stack[n - 2]) != NameOf(tab, e)
      && exists i :: 0 <= i < n - 1 && NameOf(tab, st.stack[i]) == NameOf(tab, e)
    case _ => false
  }

  /** A mismatch is a return that closes more than one frame, or the one frame twice. */
  lemma MismatchExactly(tab: SymTab, earliest: u64, st: State, e: Entry)
    requires KindOf(e.address) == OwnReturn || KindOf(e.address) == CallerReturn
    ensures Mismatch(tab, st, e) <==> |Step(tab, earliest, st, e).out| > |st.out| + 1
  {
    hide KindOf;
    var n := |st.stack|;
    if n > 0 && KindOf(e.address) == OwnReturn {
      OwnReturnTop(tab, st.stack, e);
      OwnReturnLower(tab, st.stack, e);
    }
    if n > 0 && KindOf(e.address) == CallerReturn {
      CallerReturnLower(tab, st.stack, e);
    }
  }

  lemma OwnReturnLower(tab: SymTab, stack: seq<Entry>, e: Entry)
    requires stack != []
    ensures OwnReturnEmptied(tab, stack, e) == |stack| ==> NameOf(tab, stack[|stack| - 1]) == NameOf(tab, e)
  {
  }

  lemma CallerReturnLower(tab: SymTab, stack: seq<Entry>, e: Entry)
    requires stack != []
    ensures CallerReturnLow(tab, stack, e) < |stack| - 1
       <==> && |stack| > 1 && NameOf(tab, stack[|stack| - 2]) != NameOf(tab, e)
            && exists i :: 0 <= i < |stack| - 1 && NameOf(tab, stack[i]) == NameOf(tab, e)
  {
    var rest := stack[..|stack| - 1];
    var i := Topmost(tab, rest, NameOf(tab, e), false);
    if i >= 0 {
      assert NameOf(tab, stack[i]) == NameOf(tab, e);
    }
    forall j | 0 <= j < |stack| - 1 && NameOf(tab, stack[j]) == NameOf(tab, e) ensures i >= j {
      assert Stops(tab, rest[j], NameOf(tab, e), false);
    }
  }

  /** An own-address return whose name is nowhere on a non-empty stack. */
  predicate Drains(tab: SymTab, st: State, e: Entry) {
    && KindOf(e.address) == OwnReturn
    && st.stack != []
    && forall i :: 0 <= i < |st.stack| ==> NameOf(tab, st.stack[i]) != NameOf(tab, e)
  }

  lemma {:induction false} RunConcat(tab: SymTab, earliest: u64, st: State, a: seq<Entry>, b: seq<Entry>)
    ensures Run(tab, earliest, st, a + b) == Run(tab, earliest, Run(tab, earliest, st, a), b)
    decreases |b|
  {
    if b == [] {
      assert a + b == a;
    } else {
      var m := |b| - 1;
      assert (a + b)[..|a + b| - 1] == a + b[..m];
      RunConcat(tab, earliest, st, a, b[..m]);
    }
  }

  lemma RunMore(tab: SymTab, earliest: u64, st: State, events: seq<Entry>, e: Entry)
    ensures Run(tab, earliest, st, events + [e]) == Step(tab, earliest, Run(tab, earliest, st, events), e)
  {
    assert (events + [e])[..|events|] == events;
  }

  /** The pop loops stop where `Topmost` says. */
  lemma TopmostUnique(tab: SymTab, stack: seq<Entry>, name: string, flagStops: bool, i: int)
    requires -1 <= i < |stack|
    requires i >= 0 ==> Stops(tab, stack[i], name, flagStops)
    requires forall j :: i < j < |stack| ==> !Stops(tab, stack[j], name, flagStops)
    ensures Topmost(tab, stack, name, flagStops) == i
  {
  }

  /** One more frame popped is one more span. */
  lemma CloseMore(tab: SymTab, stack: seq<Entry>, lo: nat, now: u64, firstShift: int)
    requires 0 < lo <= |stack|
    ensures Close(tab, stack, lo - 1, now, firstShift)
         == Close(tab, stack, lo, now, firstShift) + [CloseOne(tab, stack[lo - 1], now, firstShift + |stack| - lo)]
  {
  }

  /** The frame below frame `m` has that name. */
  predicate CalledFrom(tab: SymTab, stack: seq<Entry>, m: nat, name: string)
    requires m <= |stack|
  {
    m > 0 && NameOf(tab, stack[m - 1]) == name
  }

  /** Below the returning frame, only the lowest frame to be closed was called by the named caller. */
  lemma CallerReturnStops(tab: SymTab, stack: seq<Entry>, e: Entry)
    requires stack != [] && CallerReturnLow(tab, stack, e) < |stack| - 1
    ensures var lo := CallerReturnLow(tab, stack, e);
            && 0 < lo
            && forall m :: lo <= m < |stack| - 1 ==> (CalledFrom(tab, stack, m, NameOf(tab, e)) <==> m == lo)
  {
    var rest := stack[..|stack| - 1];
    var i := Topmost(tab, rest, NameOf(tab, e), false);
    forall m | i + 1 <= m < |stack| - 1
      ensures CalledFrom(tab, stack, m, NameOf(tab, e)) <==> m == i + 1
    {
      assert rest[m - 1] == stack[m - 1];
      assert i < m - 1 ==> !Stops(tab, rest[m - 1], NameOf(tab, e), false);
    }
  }

  lemma OwnReturnTop(tab: SymTab, stack: seq<Entry>, e: Entry)
    requires stack != []
    ensures NameOf(tab, stack[|stack| - 1]) == NameOf(tab, e) ==>
              OwnReturnLow(tab, stack, e) == |stack| - 1 && OwnReturnEmptied(tab, stack, e) == |stack|
  {
  }

  /** Unless the stack is drained, the frames closed are the returning function's and those above it. */
  lemma OwnReturnCloses(tab: SymTab, stack: seq<Entry>, e: Entry)
    requires stack != []
    ensures OwnReturnSpans(tab, stack, e)
         == if Topmost(tab, stack, NameOf(tab, e), false) >= 0
            then Close(tab, stack, OwnReturnLow(tab, stack, e), e.cycle, 0)
            else Close(tab, stack, 0, e.cycle, 0) + [CloseOne(tab, stack[0], e.cycle, |stack| - 1)]
  {
    hide Topmost, Close, CloseOne;
    var m := OwnReturnLow(tab, stack, e);
    if Topmost(tab, stack, NameOf(tab, e), false) >= 0 {
      CloseMore(tab, stack, m + 1, e.cycle, 0);
    }
  }

  lemma DrainsIff(tab: SymTab, st: State, e: Entry)
    requires KindOf(e.address) == OwnReturn && st.stack != []
    ensures Drains(tab, st, e) <==> Topmost(tab, st.stack, NameOf(tab, e), false) < 0
  {
    if Topmost(tab, st.stack, NameOf(tab, e), false) < 0 {
      forall j | 0 <= j < |st.stack| ensures NameOf(tab, st.stack[j]) != NameOf(tab, e) {
        assert !Stops(tab, st.stack[j], NameOf(tab, e), false);
      }
    }
  }
}
