/** The program side: a run is a stack of frames changed by calls, returns and unwinding to a catcher.
A window of the events it logs is decoded into the calls that really happened. */
module CallRuns {
  import opened Events
  import opened Decoder

  /** `entry` is what the call logs, or would log were the function traced. */
  datatype Frame = Frame(entry: Entry, traced: bool)

  /** `logged` is what a return logs if the function is traced, and what a catch always logs. An unwinding
  drops the top `k` frames in one step. */
  datatype Action =
    | Enter(frame: Frame)
    | Leave(logged: Entry)
    | Unwind(k: nat, logged: Entry)

  /** The stack, split into frames entered before the window and frames entered in it; `last` is the
  function the last caller-address return went to, `orphans` counts traced returns of outside frames. */
  datatype Truth = Truth(outside: seq<Frame>, inside: seq<Frame>, last: Sym, orphans: nat) {
    function Stack(): seq<Frame> { outside + inside }

    function Top(): Frame
      requires Stack() != []
    {
      Below(0)
    }

    predicate TopTraced() { Stack() != [] && Top().traced }

    /** The frame `k` below the top. */
    function Below(k: nat): Frame
      requires k < |Stack()|
    {
      Stack()[|Stack()| - 1 - k]
    }
  }

  /** A window opens on an arbitrary stack. */
  function Opening(stack: seq<Frame>): Truth { Truth(stack, [], UNKNOWN_SYM, 0) }

  function Live(frames: seq<Frame>): (entries: seq<Entry>)
    ensures |entries| <= |frames|
  {
    if frames == [] then []
    else
      var f := frames[|frames| - 1];
      Live(frames[..|frames| - 1]) + if f.traced then [f.entry] else []
  }

  /** What the hooks can log: a return names the returning function or its caller, a catch names the
  catcher, and a function that returns upon a throw has logged that before the catch. */
  predicate Legal(tab: SymTab, t: Truth, a: Action) { LegalOn(tab, t.Stack(), a) }

  predicate LegalOn(tab: SymTab, stack: seq<Frame>, a: Action) {
    var n := |stack|;
    match a
    case Enter(f) => KindOf(f.entry.address) == Call
    case Leave(e) => n > 0 && (stack[n - 1].traced ==> LegalReturn(tab, stack, e))
    case Unwind(k, e) =>
      && k < n
      && KindOf(e.address) == Catch
      && NameOf(tab, e) == NameOf(tab, stack[n - 1 - k].entry)
      && forall j :: n - k <= j < n && stack[j].traced ==> !ReturnsUponThrow(stack[j].entry.address)
  }

  predicate LegalReturn(tab: SymTab, stack: seq<Frame>, e: Entry)
    requires stack != []
  {
    var n := |stack|;
    || (KindOf(e.address) == OwnReturn && NameOf(tab, e) == NameOf(tab, stack[n - 1].entry))
    || (KindOf(e.address) == CallerReturn && (n > 1 ==> NameOf(tab, e) == NameOf(tab, stack[n - 2].entry)))
  }

  /** Frames entered in the window, and before it, that survive an unwinding. */
  function Surviving(t: Truth, k: nat): (m: nat)
    ensures m <= |t.inside|
  {
    if k <= |t.inside| then |t.inside| - k else 0
  }

  function SurvivingOutside(t: Truth, k: nat): nat {
    if k <= |t.inside| then |t.outside| else if k <= |t.Stack()| then |t.Stack()| - k else 0
  }

  function Advance(tab: SymTab, t: Truth, a: Action): Truth {
    match a
    case Enter(f) => t.(inside := t.inside + [f])
    case Leave(e) =>
      var last := if t.TopTraced() && KindOf(e.address) == CallerReturn then SymOf(tab, e) else t.last;
      if t.inside != [] then t.(inside := t.inside[..|t.inside| - 1], last := last)
      else if t.outside != [] then
        t.(outside := t.outside[..|t.outside| - 1], last := last,
           orphans := t.orphans + if t.TopTraced() then 1 else 0)
      else t
    case Unwind(k, _) =>
      t.(inside := t.inside[..Surviving(t, k)], outside := t.outside[..SurvivingOutside(t, k)])
  }

  function Logged(t: Truth, a: Action): seq<Entry> {
    match a
    case Enter(f) => if f.traced then [f.entry] else []
    case Leave(e) => if t.TopTraced() then [e] else []
    case Unwind(_, e) => [e]
  }

  /** Calls of the traced frames that end at `now`, the innermost first. */
  function Ended(tab: SymTab, frames: seq<Frame>, now: u64, shift: int): seq<Span> {
    if frames == [] then []
    else
      var f := frames[|frames| - 1];
      var rest := frames[..|frames| - 1];
      if f.traced then [Span(SymOf(tab, f.entry), f.entry.cycle, now, shift)] + Ended(tab, rest, now, shift + 1)
      else Ended(tab, rest, now, shift)
  }

  /** The calls an action completes. One that began before the window starts with the window. */
  function Completed(tab: SymTab, earliest: u64, t: Truth, a: Action): seq<Span>
  {
    match a
    case Enter(_) => []
    case Leave(e) =>
      if !t.TopTraced() then []
      else if t.inside != [] then [Span(SymOf(tab, t.Top().entry), t.Top().entry.cycle, e.cycle, 0)]
      else [Span(if KindOf(e.address) == OwnReturn then SymOf(tab, e) else t.last,
                 earliest, e.cycle, -(t.orphans + 1))]
    case Unwind(k, e) => Ended(tab, t.inside[Surviving(t, k)..], e.cycle, 1)
  }

  /** What the decoder can get right from names alone. A catch: none of the live frames it unwinds looks
  like the catcher, and the live frame it should stop at does, or is marked as returning upon a throw.
  A caller-address return: the caller's name is on the live stack only if it is on top of it. */
  predicate Decodable(tab: SymTab, t: Truth, a: Action) {
    match a
    case Enter(_) => true
    case Leave(e) =>
      KindOf(e.address) == CallerReturn && t.inside != [] && t.TopTraced() ==>
        CallerFits(tab, Live(t.inside[..|t.inside| - 1]), NameOf(tab, e))
    case Unwind(k, e) =>
      var kept := Live(t.inside[..Surviving(t, k)]);
      var gone := Live(t.inside[Surviving(t, k)..]);
      && (forall i :: 0 <= i < |gone| ==> NameOf(tab, gone[i]) != NameOf(tab, e))
      && (kept != [] ==> Stops(tab, kept[|kept| - 1], NameOf(tab, e), true))
  }

  predicate CallerFits(tab: SymTab, rest: seq<Entry>, caller: string) {
    || rest == []
    || NameOf(tab, rest[|rest| - 1]) == caller
    || forall i :: 0 <= i < |rest| ==> NameOf(tab, rest[i]) != caller
  }

  // Whole windows, action after action.

  function After(tab: SymTab, t: Truth, acts: seq<Action>): Truth {
    if acts == [] then t else Advance(tab, After(tab, t, acts[..|acts| - 1]), acts[|acts| - 1])
  }

  predicate LegalRun(tab: SymTab, t: Truth, acts: seq<Action>) {
    acts == []
    || (LegalRun(tab, t, acts[..|acts| - 1])
        && Legal(tab, After(tab, t, acts[..|acts| - 1]), acts[|acts| - 1]))
  }

  function LogOf(tab: SymTab, t: Truth, acts: seq<Action>): seq<Entry> {
    if acts == [] then []
    else
      var m := |acts| - 1;
      LogOf(tab, t, acts[..m]) + Logged(After(tab, t, acts[..m]), acts[m])
  }

  function CompletedBy(tab: SymTab, earliest: u64, t: Truth, acts: seq<Action>): seq<Span> {
    if acts == [] then []
    else
      var m := |acts| - 1;
      CompletedBy(tab, earliest, t, acts[..m]) + Completed(tab, earliest, After(tab, t, acts[..m]), acts[m])
  }

  predicate DecodableRun(tab: SymTab, t: Truth, acts: seq<Action>) {
    acts == []
    || (DecodableRun(tab, t, acts[..|acts| - 1])
        && Decodable(tab, After(tab, t, acts[..|acts| - 1]), acts[|acts| - 1]))
  }

  /** The calls of a window: those completed in it, and those still running, which get made-up ends. */
  function TrueSpans(tab: SymTab, earliest: u64, latest: u64, t: Truth, acts: seq<Action>): seq<Span> {
    CompletedBy(tab, earliest, t, acts) + Finish(tab, Live(After(tab, t, acts).inside), latest)
  }

  // The simulation.

  /** The decoder knows the traced frames entered in the window and what was completed. */
  function Seen(t: Truth, out: seq<Span>): State { State(Live(t.inside), t.last, t.orphans, out) }

  lemma {:induction false} LiveConcat(a: seq<Frame>, b: seq<Frame>)
    ensures Live(a + b) == Live(a) + Live(b)
    decreases |b|
  {
    if b == [] {
      assert a + b == a;
    } else {
      assert (a + b)[..|a + b| - 1] == a + b[..|b| - 1];
      LiveConcat(a, b[..|b| - 1]);
    }
  }

  lemma {:induction false} LiveMembers(frames: seq<Frame>, i: nat) returns (k: nat)
    requires i < |Live(frames)|
    ensures k < |frames| && frames[k].traced && frames[k].entry == Live(frames)[i]
    decreases |frames|
  {
    var m := |frames| - 1;
    if i < |Live(frames[..m])| {
      k := LiveMembers(frames[..m], i);
    } else {
      k := m;
    }
  }

  /** Ending frames one after the other is closing the part of the decoder's stack they make up. */
  lemma {:induction false} EndedIsClose(tab: SymTab, base: seq<Entry>, frames: seq<Frame>, now: u64, shift: int)
    ensures Ended(tab, frames, now, shift) == Close(tab, base + Live(frames), |base|, now, shift)
    decreases |frames|
  {
    if frames != [] {
      var rest := frames[..|frames| - 1];
      var f := frames[|frames| - 1];
      EndedIsClose(tab, base, rest, now, if f.traced then shift + 1 else shift);
    }
  }

  /** A matching own-address return closes just the top frame. */
  lemma OwnReturnMatched(tab: SymTab, st: State, rest: seq<Entry>, top: Entry, e: Entry)
    requires st.stack == rest + [top] && NameOf(tab, top) == NameOf(tab, e)
    ensures OwnReturnStep(tab, st, e) == st.(stack := rest, out := st.out + [CloseOne(tab, top, e.cycle, 0)])
  {
    OwnReturnTop(tab, st.stack, e);
    assert st.stack[..|rest|] == rest;
    assert Close(tab, st.stack, |st.stack|, e.cycle, 0) == [];
  }

  /** So does a caller-address return that has no reason to look further down. */
  lemma CallerReturnMatched(tab: SymTab, st: State, rest: seq<Entry>, top: Entry, e: Entry)
    requires st.stack == rest + [top] && CallerFits(tab, rest, NameOf(tab, e))
    ensures CallerReturnStep(tab, st, e)
         == st.(stack := rest, expecting := SymOf(tab, e), out := st.out + [CloseOne(tab, top, e.cycle, 0)])
  {
    CallerOnTop(tab, st.stack, e);
    assert st.stack[..|rest|] == rest;
    assert Close(tab, st.stack, |rest|, e.cycle, 0) == [CloseOne(tab, top, e.cycle, 0)];
  }

  lemma LeaveSimulated(tab: SymTab, earliest: u64, t: Truth, e: Entry, out: seq<Span>)
    requires Legal(tab, t, Leave(e)) && t.Top().traced
    requires Decodable(tab, t, Leave(e))
    ensures Step(tab, earliest, Seen(t, out), e)
         == Seen(Advance(tab, t, Leave(e)), out + Completed(tab, earliest, t, Leave(e)))
  {
    if t.inside != [] {
      var rest := Live(t.inside[..|t.inside| - 1]);
      if KindOf(e.address) == OwnReturn {
        OwnReturnMatched(tab, Seen(t, out), rest, t.Top().entry, e);
      } else {
        CallerReturnMatched(tab, Seen(t, out), rest, t.Top().entry, e);
      }
    }
  }

  lemma LeaveMatches(tab: SymTab, t: Truth, e: Entry, out: seq<Span>)
    requires Legal(tab, t, Leave(e)) && t.Top().traced
    requires Decodable(tab, t, Leave(e))
    ensures !Mismatch(tab, Seen(t, out), e)
  {
    if t.inside != [] {
      var stack, rest := Live(t.inside), Live(t.inside[..|t.inside| - 1]);
      assert stack == rest + [t.Top().entry];
      assert forall i :: 0 <= i < |rest| ==> stack[i] == rest[i];
    }
  }

  /** One frame is closed exactly when the caller's name is nowhere below the top but right under it. */
  lemma CallerOnTop(tab: SymTab, stack: seq<Entry>, e: Entry)
    requires stack != []
    ensures CallerReturnLow(tab, stack, e) == |stack| - 1 <==>
            CallerFits(tab, stack[..|stack| - 1], NameOf(tab, e))
  {
    var rest := stack[..|stack| - 1];
    var i := Topmost(tab, rest, NameOf(tab, e), false);
    assert rest != [] ==> (Stops(tab, rest[|rest| - 1], NameOf(tab, e), false) <==> i == |rest| - 1);
  }

  /** What survives an unwinding, and what is gone, of what the decoder knows. */
  lemma UnwindParts(tab: SymTab, t: Truth, k: nat, e: Entry)
    requires Legal(tab, t, Unwind(k, e))
    ensures var m := Surviving(t, k);
            var kept, gone := Live(t.inside[..m]), Live(t.inside[m..]);
            && Live(t.inside) == kept + gone
            && Seen(Advance(tab, t, Unwind(k, e)), []) == State(kept, t.last, t.orphans, [])
            && (Topmost(tab, kept + gone, NameOf(tab, e), true) + 1 == |kept| <==> Decodable(tab, t, Unwind(k, e)))
  {
    hide Legal, Live, Topmost, Stops;
    var m := Surviving(t, k);
    assert t.inside == t.inside[..m] + t.inside[m..];
    LiveConcat(t.inside[..m], t.inside[m..]);
    GoneUnmarked(tab, t, k, e);
    CatchDepth(tab, Live(t.inside[..m]), Live(t.inside[m..]), NameOf(tab, e));
  }

  /** A catch leaves the decoder with the true stack exactly when it is decodable. */
  lemma CatchExact(tab: SymTab, t: Truth, k: nat, e: Entry, out: seq<Span>)
    requires Legal(tab, t, Unwind(k, e))
    ensures CatchStep(tab, Seen(t, out), e).stack == Live(Advance(tab, t, Unwind(k, e)).inside)
       <==> Decodable(tab, t, Unwind(k, e))
  {
    hide Legal, Live, Topmost, Stops, Decodable, Advance, Close;
    var m := Surviving(t, k);
    var kept, gone := Live(t.inside[..m]), Live(t.inside[m..]);
    UnwindParts(tab, t, k, e);
    PrefixLength(kept, gone, Topmost(tab, kept + gone, NameOf(tab, e), true) + 1);
  }

  lemma PrefixLength(a: seq<Entry>, b: seq<Entry>, n: nat)
    requires n <= |a + b|
    ensures (a + b)[..n] == a <==> n == |a|
  {
    if n == |a| {
      assert (a + b)[..n] == a;
    } else {
      assert |(a + b)[..n]| == n;
    }
  }

  lemma GoneUnmarked(tab: SymTab, t: Truth, k: nat, e: Entry)
    requires Legal(tab, t, Unwind(k, e))
    ensures var gone := Live(t.inside[Surviving(t, k)..]);
            forall i :: 0 <= i < |gone| ==> !ReturnsUponThrow(gone[i].address)
  {
    var m := Surviving(t, k);
    var gone := Live(t.inside[m..]);
    forall i | 0 <= i < |gone| ensures !ReturnsUponThrow(gone[i].address) {
      var j := LiveMembers(t.inside[m..], i);
      assert t.Stack()[|t.outside| + m + j] == t.inside[m + j];
    }
  }

  /** The pop loop of a catch stops between `kept` and `gone` exactly when it should. */
  lemma CatchDepth(tab: SymTab, kept: seq<Entry>, gone: seq<Entry>, name: string)
    requires forall i :: 0 <= i < |gone| ==> !ReturnsUponThrow(gone[i].address)
    ensures Topmost(tab, kept + gone, name, true) + 1 == |kept| <==>
            && (forall i :: 0 <= i < |gone| ==> NameOf(tab, gone[i]) != name)
            && (kept != [] ==> Stops(tab, kept[|kept| - 1], name, true))
  {
    var stack := kept + gone;
    var i := Topmost(tab, stack, name, true);
    if i + 1 == |kept| {
      forall j | 0 <= j < |gone| ensures NameOf(tab, gone[j]) != name {
        assert !Stops(tab, stack[|kept| + j], name, true);
      }
    } else if i + 1 > |kept| {
      assert stack[i] == gone[i - |kept|];
    } else {
      assert !Stops(tab, stack[|kept| - 1], name, true);
    }
  }

  lemma CatchSplits(tab: SymTab, earliest: u64, st: State, kept: seq<Entry>, gone: seq<Entry>, e: Entry)
    requires KindOf(e.address) == Catch && st.stack == kept + gone
    requires Topmost(tab, kept + gone, NameOf(tab, e), true) + 1 == |kept|
    ensures Step(tab, earliest, st, e)
         == st.(stack := kept, out := st.out + Close(tab, kept + gone, |kept|, e.cycle, 1))
  {
    hide KindOf, Topmost, Close;
    assert (kept + gone)[..|kept|] == kept;
  }

  lemma UnwindCompletes(tab: SymTab, earliest: u64, t: Truth, k: nat, e: Entry)
    ensures var m := Surviving(t, k);
            var kept, gone := Live(t.inside[..m]), Live(t.inside[m..]);
            Completed(tab, earliest, t, Unwind(k, e)) == Close(tab, kept + gone, |kept|, e.cycle, 1)
  {
    hide Live, Close, Ended;
    var m := Surviving(t, k);
    EndedIsClose(tab, Live(t.inside[..m]), t.inside[m..], e.cycle, 1);
  }

  lemma LegalUnwind(tab: SymTab, t: Truth, k: nat, e: Entry)
    requires Legal(tab, t, Unwind(k, e))
    ensures KindOf(e.address) == Catch
  {
    hide KindOf;
  }

  lemma UnwindSimulated(tab: SymTab, earliest: u64, t: Truth, k: nat, e: Entry, out: seq<Span>)
    requires Legal(tab, t, Unwind(k, e)) && Decodable(tab, t, Unwind(k, e))
    ensures Step(tab, earliest, Seen(t, out), e)
         == Seen(Advance(tab, t, Unwind(k, e)), out + Completed(tab, earliest, t, Unwind(k, e)))
  {
    hide Legal, KindOf, Live, Topmost, Decodable, Close, Completed, Advance, Surviving, Step;
    var m := Surviving(t, k);
    var kept, gone := Live(t.inside[..m]), Live(t.inside[m..]);
    LegalUnwind(tab, t, k, e);
    UnwindParts(tab, t, k, e);
    UnwindCompletes(tab, earliest, t, k, e);
    CatchSplits(tab, earliest, Seen(t, out), kept, gone, e);
  }

  /** A caller-address return leaves the decoder with the true stack exactly when it is decodable. */
  lemma CallerReturnExact(tab: SymTab, t: Truth, e: Entry, out: seq<Span>)
    requires Legal(tab, t, Leave(e)) && t.Top().traced && t.inside != [] && KindOf(e.address) == CallerReturn
    ensures CallerReturnStep(tab, Seen(t, out), e).stack == Live(Advance(tab, t, Leave(e)).inside)
       <==> Decodable(tab, t, Leave(e))
  {
    var stack := Live(t.inside);
    assert stack == Live(t.inside[..|t.inside| - 1]) + [t.Top().entry];
    CallerOnTop(tab, stack, e);
    var lo := CallerReturnLow(tab, stack, e);
    assert stack[..|stack| - 1] == Live(t.inside[..|t.inside| - 1]);
    assert |stack[..lo]| == lo;
  }

  lemma ActionSimulated(tab: SymTab, earliest: u64, t: Truth, a: Action, out: seq<Span>)
    requires Legal(tab, t, a) && Decodable(tab, t, a)
    ensures Run(tab, earliest, Seen(t, out), Logged(t, a))
         == Seen(Advance(tab, t, a), out + Completed(tab, earliest, t, a))
  {
    assert out + [] == out;
    match a {
      case Enter(f) =>
        LiveConcat(t.inside, [f]);
        RunOne(tab, earliest, Seen(t, out), f.entry);
      case Leave(e) =>
        RunOne(tab, earliest, Seen(t, out), e);
        if t.Top().traced {
          LeaveSimulated(tab, earliest, t, e, out);
        }
      case Unwind(k, e) =>
        RunOne(tab, earliest, Seen(t, out), e);
        UnwindSimulated(tab, earliest, t, k, e, out);
    }
  }

  lemma RunOne(tab: SymTab, earliest: u64, st: State, e: Entry)
    ensures Run(tab, earliest, st, [e]) == Step(tab, earliest, st, e)
  {
    assert [] + [e] == [e];
    RunMore(tab, earliest, st, [], e);
  }

  lemma ActionMatches(tab: SymTab, t: Truth, a: Action, out: seq<Span>, e: Entry)
    requires Legal(tab, t, a) && Decodable(tab, t, a) && Logged(t, a) == [e]
    ensures !Mismatch(tab, Seen(t, out), e)
  {
    if a.Leave? {
      LeaveMatches(tab, t, e, out);
    }
  }

  /** After every event of a decodable window the decoder's stack is exactly the traced frames entered in
  the window, and what it has emitted is exactly what was completed. */
  lemma {:induction false} WindowSimulated(tab: SymTab, earliest: u64, stack: seq<Frame>, acts: seq<Action>)
    requires LegalRun(tab, Opening(stack), acts) && DecodableRun(tab, Opening(stack), acts)
    ensures Run(tab, earliest, INIT, LogOf(tab, Opening(stack), acts))
         == Seen(After(tab, Opening(stack), acts), CompletedBy(tab, earliest, Opening(stack), acts))
    decreases |acts|
  {
    var t := Opening(stack);
    if acts != [] {
      var m := |acts| - 1;
      var u := After(tab, t, acts[..m]);
      WindowSimulated(tab, earliest, stack, acts[..m]);
      ActionSimulated(tab, earliest, u, acts[m], CompletedBy(tab, earliest, t, acts[..m]));
      RunConcat(tab, earliest, INIT, LogOf(tab, t, acts[..m]), Logged(u, acts[m]));
    }
  }

  /** Decoding a decodable window never takes the mismatch branches. */
  lemma {:induction false} WindowMatches(tab: SymTab, earliest: u64, stack: seq<Frame>, acts: seq<Action>, i: nat)
    requires LegalRun(tab, Opening(stack), acts) && DecodableRun(tab, Opening(stack), acts)
    requires i < |LogOf(tab, Opening(stack), acts)|
    ensures var log := LogOf(tab, Opening(stack), acts);
            !Mismatch(tab, Run(tab, earliest, INIT, log[..i]), log[i])
    decreases |acts|
  {
    var t := Opening(stack);
    var m := |acts| - 1;
    var before, log := LogOf(tab, t, acts[..m]), LogOf(tab, t, acts);
    if i < |before| {
      WindowMatches(tab, earliest, stack, acts[..m], i);
      assert log[..i] == before[..i];
    } else {
      WindowSimulated(tab, earliest, stack, acts[..m]);
      ActionMatches(tab, After(tab, t, acts[..m]), acts[m], CompletedBy(tab, earliest, t, acts[..m]), log[i]);
      assert log[..i] == before;
    }
  }

  /** The decoder turns the log of a decodable window into its calls. */
  lemma WindowDecoded(tab: SymTab, earliest: u64, latest: u64, stack: seq<Frame>, acts: seq<Action>)
    requires LegalRun(tab, Opening(stack), acts) && DecodableRun(tab, Opening(stack), acts)
    ensures Decode(tab, LogOf(tab, Opening(stack), acts), earliest, latest)
         == TrueSpans(tab, earliest, latest, Opening(stack), acts)
  {
    WindowSimulated(tab, earliest, stack, acts);
  }
}
