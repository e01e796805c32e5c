/** How the emitted calls lie on the timeline, first by their cycles, then with the made-up nanoseconds.

Both readings are proved at once. Times are in units of 1/freq nanoseconds, so that a cycle is 10^9 units
and a nanosecond is `freq` units: integers, with nothing rounded. With `freq` zero the shifts vanish. */
module Nesting {
  import opened Events
  import opened Decoder

  const CYCLE := 1_000_000_000

  /** `strict`: endpoints must differ. `freq`: units in a nanosecond. */
  datatype Scale = Scale(strict: bool, freq: nat) {
    ghost predicate Valid() { strict <==> freq > 0 }
  }

  const UNSHIFTED: Scale := Scale(false, 0)

  function Ns(sc: Scale, shift: int): int { shift * sc.freq }

  predicate Before(sc: Scale, a: int, b: int) { a < b || (!sc.strict && a == b) }

  function At(cycle: u64): int { cycle * CYCLE }

  function Start(sc: Scale, s: Span): int { At(s.start) + Ns(sc, if s.shift < 0 then s.shift else 0) }

  function End(sc: Scale, s: Span): int { At(s.end) + Ns(sc, if s.shift > 0 then s.shift else 0) }

  predicate Inside(sc: Scale, a: Span, b: Span) {
    Before(sc, Start(sc, b), Start(sc, a)) && Before(sc, End(sc, a), End(sc, b))
  }

  /** One within the other, or one after the other. */
  predicate Compatible(sc: Scale, a: Span, b: Span) {
    || Before(sc, End(sc, a), Start(sc, b))
    || Before(sc, End(sc, b), Start(sc, a))
    || Inside(sc, a, b)
    || Inside(sc, b, a)
  }

  ghost predicate Pairwise(sc: Scale, spans: seq<Span>) {
    forall i, j :: 0 <= i < j < |spans| ==> Compatible(sc, spans[i], spans[j])
  }

  ghost predicate Within(sc: Scale, floor: int, hi: int, spans: seq<Span>) {
    forall i :: 0 <= i < |spans| ==>
      && floor <= Start(sc, spans[i])
      && Before(sc, Start(sc, spans[i]), End(sc, spans[i]))
      && End(sc, spans[i]) <= hi
  }

  ghost predicate StackWithin(sc: Scale, floor: int, hi: int, stack: seq<Entry>) {
    && (forall i :: 0 <= i < |stack| ==> floor <= At(stack[i].cycle) <= hi)
    && forall i, j :: 0 <= i < j < |stack| ==> Before(sc, At(stack[i].cycle), At(stack[j].cycle))
  }

  /** An open call began before an emitted one, and will enclose it, or after it. */
  ghost predicate Apart(sc: Scale, out: seq<Span>, stack: seq<Entry>) {
    forall i, j :: 0 <= i < |out| && 0 <= j < |stack| ==> OpenApart(sc, out[i], stack[j])
  }

  predicate OpenApart(sc: Scale, s: Span, e: Entry) {
    Before(sc, At(e.cycle), Start(sc, s)) || Before(sc, End(sc, s), At(e.cycle))
  }

  /** Everything so far lies between `floor` and `hi`. */
  ghost predicate Inv(sc: Scale, floor: int, hi: int, out: seq<Span>, stack: seq<Entry>) {
    && Pairwise(sc, out)
    && Within(sc, floor, hi, out)
    && StackWithin(sc, floor, hi, stack)
    && Apart(sc, out, stack)
  }

  lemma NsStep(sc: Scale, shift: int)
    ensures Ns(sc, shift + 1) == Ns(sc, shift) + sc.freq
    ensures Ns(sc, 0) == 0
  {
    assert (shift + 1) * sc.freq == shift * sc.freq + sc.freq;
  }

  lemma NsMono(sc: Scale, a: int, b: int)
    requires a <= b
    ensures Ns(sc, a) <= Ns(sc, b)
  {
    assert Ns(sc, b) - Ns(sc, a) == (b - a) * sc.freq;
  }

  lemma InvWeaken(sc: Scale, floor: int, hi: int, hi': int, out: seq<Span>, stack: seq<Entry>)
    requires Inv(sc, floor, hi, out, stack) && hi <= hi'
    ensures Inv(sc, floor, hi', out, stack)
  {
  }

  /** A call ended later than everything before it, with a start that is on good terms with all of it. */
  lemma AddKeeps(sc: Scale, floor: int, hi: int, out: seq<Span>, stack: seq<Entry>, s: Span)
    requires Inv(sc, floor, hi, out, stack)
    requires floor <= Start(sc, s) && Before(sc, Start(sc, s), End(sc, s)) && Before(sc, hi, End(sc, s))
    requires forall i :: 0 <= i < |out| ==>
               Before(sc, Start(sc, s), Start(sc, out[i])) || Before(sc, End(sc, out[i]), Start(sc, s))
    requires forall j :: 0 <= j < |stack| ==> Before(sc, At(stack[j].cycle), Start(sc, s))
    ensures Inv(sc, floor, End(sc, s), out + [s], stack)
  {
    forall i | 0 <= i < |out| ensures Compatible(sc, out[i], s) {
      assert End(sc, out[i]) <= hi;
    }
  }

  /** Closing the top frame. */
  lemma PopKeeps(sc: Scale, tab: SymTab, floor: int, hi: int, out: seq<Span>, rest: seq<Entry>, top: Entry,
                 now: u64, shift: nat)
    requires Inv(sc, floor, hi, out, rest + [top])
    requires Before(sc, hi, At(now) + Ns(sc, shift))
    ensures Inv(sc, floor, At(now) + Ns(sc, shift), out + [CloseOne(tab, top, now, shift)], rest)
  {
    var s := CloseOne(tab, top, now, shift);
    var stack := rest + [top];
    NsStep(sc, 0);
    assert Start(sc, s) == At(top.cycle) && End(sc, s) == At(now) + Ns(sc, shift);
    forall i | 0 <= i < |out|
      ensures Before(sc, Start(sc, s), Start(sc, out[i])) || Before(sc, End(sc, out[i]), Start(sc, s))
    {
      assert OpenApart(sc, out[i], stack[|rest|]);
    }
    assert Inv(sc, floor, hi, out, rest) by {
      assert forall j :: 0 <= j < |rest| ==> stack[j] == rest[j];
    }
    forall j | 0 <= j < |rest| ensures Before(sc, At(rest[j].cycle), Start(sc, s)) {
      assert stack[j] == rest[j] && stack[|rest|] == top;
    }
    AddKeeps(sc, floor, hi, out, rest, s);
  }

  lemma CloseMoreOnto(tab: SymTab, out: seq<Span>, stack: seq<Entry>, lo: nat, now: u64, first: nat)
    requires lo < |stack|
    ensures out + Close(tab, stack, lo, now, first)
         == out + Close(tab, stack, lo + 1, now, first)
            + [CloseOne(tab, stack[lo], now, first + |stack| - lo - 1)]
    ensures stack[..lo + 1] == stack[..lo] + [stack[lo]]
  {
    CloseMore(tab, stack, lo + 1, now, first);
  }

  /** The latest time once frames down to `lo` are closed. */
  function ClosedBy(sc: Scale, hi: int, n: nat, lo: nat, now: u64, first: nat): int
    requires lo <= n
  {
    if lo == n then hi else At(now) + Ns(sc, first + n - lo - 1)
  }

  /** Closing frames one after the other. */
  lemma {:induction false} CloseKeeps(sc: Scale, tab: SymTab, floor: int, hi: int, out: seq<Span>, stack: seq<Entry>,
                                      lo: nat, now: u64, first: nat)
    requires sc.Valid() && lo <= |stack|
    requires Inv(sc, floor, hi, out, stack)
    requires Before(sc, hi, At(now) + Ns(sc, first))
    ensures Inv(sc, floor, ClosedBy(sc, hi, |stack|, lo, now, first), out + Close(tab, stack, lo, now, first),
                stack[..lo])
    decreases |stack| - lo
  {
    hide Ns;
    if lo == |stack| {
      assert stack[..lo] == stack && out + Close(tab, stack, lo, now, first) == out;
    } else {
      var shift := first + |stack| - lo - 1;
      CloseKeeps(sc, tab, floor, hi, out, stack, lo + 1, now, first);
      NsStep(sc, shift - 1);
      CloseMoreOnto(tab, out, stack, lo, now, first);
      PopKeeps(sc, tab, floor, ClosedBy(sc, hi, |stack|, lo + 1, now, first),
               out + Close(tab, stack, lo + 1, now, first), stack[..lo], stack[lo], now, shift);
    }
  }

  /** Emitting a call twice does no harm when endpoints may coincide. */
  lemma CopyKeeps(sc: Scale, floor: int, hi: int, out: seq<Span>, s: Span)
    requires !sc.strict && Inv(sc, floor, hi, out, []) && out != []
    requires Start(sc, s) == Start(sc, out[|out| - 1]) && End(sc, s) == End(sc, out[|out| - 1])
    ensures Inv(sc, floor, hi, out + [s], [])
  {
    var last := out[|out| - 1];
    forall i | 0 <= i < |out| ensures Compatible(sc, out[i], s) {
      assert i < |out| - 1 ==> Compatible(sc, out[i], last);
    }
  }

  lemma PushKeeps(sc: Scale, floor: int, hi: int, out: seq<Span>, stack: seq<Entry>, e: Entry)
    requires Inv(sc, floor, hi, out, stack)
    requires Before(sc, hi, At(e.cycle)) && floor <= At(e.cycle)
    ensures Inv(sc, floor, At(e.cycle), out, stack + [e])
  {
  }

  /** The largest shift an event gives to an end. */
  function EndShift(tab: SymTab, st: State, e: Entry): nat {
    var n := |st.stack|;
    if n == 0 then 0
    else
      match KindOf(e.address)
      case Call => 0
      case Catch => n - 1 - Topmost(tab, st.stack, NameOf(tab, e), true)
      case OwnReturn => n - 1 - OwnReturnLow(tab, st.stack, e)
      case CallerReturn => n - 1 - CallerReturnLow(tab, st.stack, e)
  }

  /** Where starts can lie after `orphans` orphan returns. */
  function Floor(sc: Scale, earliest: u64, orphans: nat): int { At(earliest) - Ns(sc, orphans) }

  ghost predicate StateInv(sc: Scale, earliest: u64, hi: int, st: State) {
    Inv(sc, Floor(sc, earliest, st.orphans), hi, st.out, st.stack)
  }

  lemma OrphanKeeps(sc: Scale, earliest: u64, hi: int, st: State, sym: Sym, now: u64)
    requires sc.Valid() && st.stack == [] && StateInv(sc, earliest, hi, st)
    requires Before(sc, hi, At(now)) && earliest <= now
    ensures StateInv(sc, earliest, At(now), Orphan(st, sym, earliest, now))
  {
    var s := Span(sym, earliest, now, -(st.orphans + 1));
    var floor := Floor(sc, earliest, st.orphans + 1);
    NsStep(sc, st.orphans);
    assert Ns(sc, -(st.orphans + 1)) == -Ns(sc, st.orphans + 1);
    NsStep(sc, 0);
    NsMono(sc, 0, st.orphans + 1);
    assert Start(sc, s) == floor && End(sc, s) == At(now);
    assert Inv(sc, floor, hi, st.out, []);
    AddKeeps(sc, floor, hi, st.out, [], s);
  }

  lemma ReturnKeeps(sc: Scale, tab: SymTab, earliest: u64, hi: int, st: State, e: Entry)
    requires sc.Valid() && st.stack != [] && KindOf(e.address) == OwnReturn && StateInv(sc, earliest, hi, st)
    requires Before(sc, hi, At(e.cycle)) && (sc.strict ==> !Drains(tab, st, e))
    ensures StateInv(sc, earliest, At(e.cycle) + Ns(sc, EndShift(tab, st, e)), OwnReturnStep(tab, st, e))
  {
    hide Ns;
    var i := Topmost(tab, st.stack, NameOf(tab, e), false);
    var lo := OwnReturnLow(tab, st.stack, e);
    NsStep(sc, 0);
    OwnReturnCloses(tab, st.stack, e);
    CloseKeeps(sc, tab, Floor(sc, earliest, st.orphans), hi, st.out, st.stack, lo, e.cycle, 0);
    if i < 0 {
      DrainsIff(tab, st, e);
      var out := st.out + Close(tab, st.stack, 0, e.cycle, 0);
      var s := CloseOne(tab, st.stack[0], e.cycle, |st.stack| - 1);
      assert out[|out| - 1] == s;
      CopyKeeps(sc, Floor(sc, earliest, st.orphans), At(e.cycle) + Ns(sc, EndShift(tab, st, e)), out, s);
      assert out + [s] == st.out + OwnReturnSpans(tab, st.stack, e);
    }
  }

  lemma CatchKeeps(sc: Scale, tab: SymTab, earliest: u64, hi: int, st: State, e: Entry)
    requires sc.Valid() && KindOf(e.address) == Catch && StateInv(sc, earliest, hi, st)
    requires Before(sc, hi, At(e.cycle))
    ensures StateInv(sc, earliest, At(e.cycle) + Ns(sc, EndShift(tab, st, e)), CatchStep(tab, st, e))
  {
    hide Ns;
    var lo := Topmost(tab, st.stack, NameOf(tab, e), true) + 1;
    NsStep(sc, 0);
    CloseKeeps(sc, tab, Floor(sc, earliest, st.orphans), hi, st.out, st.stack, lo, e.cycle, 1);
    if lo == |st.stack| {
      InvWeaken(sc, Floor(sc, earliest, st.orphans), hi, At(e.cycle),
                st.out + Close(tab, st.stack, lo, e.cycle, 1), st.stack[..lo]);
    }
  }

  lemma StepKeeps(sc: Scale, tab: SymTab, earliest: u64, hi: int, st: State, e: Entry)
    requires sc.Valid() && StateInv(sc, earliest, hi, st)
    requires Before(sc, hi, At(e.cycle)) && earliest <= e.cycle
    requires sc.strict ==> !Drains(tab, st, e)
    ensures StateInv(sc, earliest, At(e.cycle) + Ns(sc, EndShift(tab, st, e)), Step(tab, earliest, st, e))
  {
    hide Ns;
    NsStep(sc, 0);
    NsMono(sc, 0, st.orphans);
    match KindOf(e.address)
    case Call =>
      PushKeeps(sc, Floor(sc, earliest, st.orphans), hi, st.out, st.stack, e);
    case Catch =>
      CatchKeeps(sc, tab, earliest, hi, st, e);
    case OwnReturn =>
      if st.stack == [] {
        OrphanKeeps(sc, earliest, hi, st, SymOf(tab, e), e.cycle);
      } else {
        ReturnKeeps(sc, tab, earliest, hi, st, e);
      }
    case CallerReturn =>
      if st.stack == [] {
        OrphanKeeps(sc, earliest, hi, st, st.expecting, e.cycle);
      } else {
        CloseKeeps(sc, tab, Floor(sc, earliest, st.orphans), hi, st.out, st.stack,
                   CallerReturnLow(tab, st.stack, e), e.cycle, 0);
      }
  }
}
