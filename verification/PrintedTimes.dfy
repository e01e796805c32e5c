/** The timestamps and durations as printed: microseconds with four digits, so a tenth of a nanosecond.

In the units of `Nesting`, where a nanosecond is `freq`, a microsecond is `1000 * freq`. */
module PrintedTimes {
  import opened Events
  import opened Decoder
  import opened Nesting
  import opened Decimal
  import opened Search
  import opened Timeline

  const DIGITS := 4

  function Micro(freq: nat): nat { 1000 * freq }

  /** "ts", in units of 10^-4 us after the time base. */
  function PrintedStart(s: Span, base: u64, freq: nat): int
    requires freq > 0
  {
    Printed(Start(Scale(true, freq), s) - At(base), Micro(freq), DIGITS)
  }

  /** "dur". */
  function PrintedDuration(s: Span, freq: nat): int
    requires freq > 0
  {
    Printed(End(Scale(true, freq), s) - Start(Scale(true, freq), s), Micro(freq), DIGITS)
  }

  function PrintedEnd(s: Span, base: u64, freq: nat): int
    requires freq > 0
  {
    PrintedStart(s, base, freq) + PrintedDuration(s, freq)
  }

  lemma FourDigits()
    ensures Pow10(DIGITS) == 10_000
  {
    assert Pow10(4) == 10 * Pow10(3) && Pow10(3) == 10 * Pow10(2) && Pow10(2) == 10 * Pow10(1);
  }

  function Neg(x: int): int { -x }

  ghost predicate Near(x: int, y: int, margin: int) { Neg(margin) <= x - y <= margin }

  lemma HalfUpNear(a: nat, b: nat)
    requires b > 0
    ensures Near(2 * (HalfUp(a, b) * b), 2 * a, b)
  {
    DivBounds(2 * a + b, 2 * b);
    assert (2 * b) * HalfUp(a, b) == 2 * (HalfUp(a, b) * b);
  }

  /** Printing is off by at most half a unit of the last place. */
  lemma PrintedNear(num: int, den: nat, places: nat)
    requires den > 0
    ensures Near(2 * (Printed(num, den, places) * den), 2 * (num * Pow10(places)), den)
  {
    HalfUpNear(Abs(num) * Pow10(places), den);
    NegMul(num, Pow10(places));
    NegMul(HalfUp(Abs(num) * Pow10(places), den), den);
  }

  lemma NegMul(x: int, k: int)
    ensures Neg(x) * k == Neg(x * k)
  {
  }

  lemma LowerScaled(a: nat, b: nat, p: nat, d: nat)
    requires (2 * b) * p <= 2 * a + b
    ensures (2 * p) * (b * d) <= 2 * (a * d) + b * d
  {
    MulLe((2 * b) * p, 2 * a + b, d);
    assert ((2 * b) * p) * d == (2 * p) * (b * d);
  }

  lemma UpperScaled(c: nat, d: nat, q: nat, b: nat)
    requires b > 0 && 2 * c + d < (2 * d) * q + 2 * d
    ensures 2 * (c * b) + b * d < (2 * (q + 1)) * (b * d)
  {
    MulLe(2 * c + d + 1, (2 * d) * q + 2 * d, b);
    assert ((2 * d) * q + 2 * d) * b == (2 * (q + 1)) * (b * d);
  }

  lemma HalfUpMonotone(a: nat, b: nat, c: nat, d: nat)
    requires b > 0 && d > 0 && a * d <= c * b
    ensures HalfUp(a, b) <= HalfUp(c, d)
  {
    DivBounds(2 * a + b, 2 * b);
    DivBounds(2 * c + d, 2 * d);
    LowerScaled(a, b, HalfUp(a, b), d);
    UpperScaled(c, d, HalfUp(c, d), b);
    CancelLt(2 * HalfUp(a, b), 2 * (HalfUp(c, d) + 1), b * d);
  }

  lemma MulLe(x: int, y: int, k: nat)
    requires x <= y
    ensures x * k <= y * k
  {
  }

  lemma CancelLt(x: int, y: int, k: nat)
    requires x * k < y * k
    ensures x < y
  {
    if x >= y {
      MulLe(y, x, k);
    }
  }

  /** A larger rational never prints smaller. */
  lemma PrintedMonotone(num: int, den: nat, num': int, den': nat, places: nat)
    requires den > 0 && den' > 0 && num * den' <= num' * den
    ensures Printed(num, den, places) <= Printed(num', den', places)
  {
    if num >= 0 {
      SignFollows(num, den, num', den');
      ScaledOrder(num, den, num', den', Pow10(places));
      HalfUpMonotone(num * Pow10(places), den, num' * Pow10(places), den');
    } else if num' < 0 {
      NegMul(num, den');
      NegMul(num', den);
      ScaledOrder(Neg(num'), den', Neg(num), den, Pow10(places));
      HalfUpMonotone(Neg(num') * Pow10(places), den', Neg(num) * Pow10(places), den);
    }
  }

  lemma SignFollows(num: nat, den: nat, num': int, den': nat)
    requires den > 0 && num * den' <= num' * den
    ensures num' >= 0
  {
    CancelLt(-1, num', den);
  }

  lemma ScaledOrder(num: int, den: nat, num': int, den': nat, p: nat)
    requires num * den' <= num' * den
    ensures (num * p) * den' <= (num' * p) * den
  {
    MulLe(num * den', num' * den, p);
    assert (num * den') * p == (num * p) * den' && (num' * den) * p == (num' * p) * den;
  }

  lemma HalfUpApart(a: nat, c: nat, b: nat)
    requires b > 0 && a + b <= c
    ensures HalfUp(a, b) < HalfUp(c, b)
  {
    var p, q := HalfUp(a, b), HalfUp(c, b);
    DivBounds(2 * a + b, 2 * b);
    DivBounds(2 * c + b, 2 * b);
    assert (2 * b) * (p + 1) == (2 * b) * p + 2 * b;
    assert (2 * b) * (q + 1) == (2 * b) * q + 2 * b;
    CancelLt(p + 1, q + 1, 2 * b);
  }

  lemma HalfUpPositive(a: nat, b: nat)
    requires b > 0 && b <= 2 * a
    ensures HalfUp(a, b) >= 1
  {
    DivBounds(2 * a + b, 2 * b);
    CancelLt(0, HalfUp(a, b), 2 * b);
  }

  /** Rationals a unit of the last place apart print differently, in the same order. */
  lemma PrintedApart(num: int, num': int, den: nat, places: nat)
    requires den > 0 && (num' - num) * Pow10(places) >= den
    ensures Printed(num, den, places) < Printed(num', den, places)
  {
    var p := Pow10(places);
    assert (num' - num) * p == num' * p - num * p;
    CancelLt(0, num' - num, p);
    if num >= 0 {
      HalfUpApart(num * p, num' * p, den);
    } else if num' < 0 {
      NegMul(num, p);
      NegMul(num', p);
      HalfUpApart(Neg(num') * p, Neg(num) * p, den);
    } else {
      NegMul(num, p);
      if den <= 2 * (num' * p) {
        HalfUpPositive(num' * p, den);
      } else {
        HalfUpPositive(Neg(num) * p, den);
      }
    }
  }

  /** Up to 10 GHz, calls that began at different cycles print different timestamps, in order. */
  lemma CyclesPrintApart(a: Span, b: Span, base: u64, freq: nat)
    requires 0 < freq <= 10_000_000_000
    requires a.start < b.start && a.shift >= 0 && b.shift >= 0
    ensures PrintedStart(a, base, freq) < PrintedStart(b, base, freq)
  {
    var sc := Scale(true, freq);
    FourDigits();
    NsStep(sc, 0);
    PrintedApart(Start(sc, a) - At(base), Start(sc, b) - At(base), Micro(freq), DIGITS);
  }

  lemma OutOfMicros(p: int, freq: nat)
    ensures p * Micro(freq) == 1000 * (p * freq)
  {
  }

  /** From nanoseconds over the frequency to ten-thousandths of a microsecond. */
  lemma NearInMicroseconds(p: int, cycles: int, shift: int, freq: nat)
    requires Near(2 * (p * Micro(freq)), 2 * ((cycles * 1_000_000_000 + shift) * 10_000), Micro(freq))
    ensures Near(2 * (p * freq), 2 * (cycles * 10_000_000_000 + 10 * shift), freq)
  {
    OutOfMicros(p, freq);
  }

  lemma StartInCycles(s: Span, base: u64, freq: nat)
    ensures var ns := if s.shift < 0 then -s.shift else 0;
            Start(Scale(true, freq), s) - At(base) == (s.start - base) * 1_000_000_000 + Neg(ns * freq)
  {
    NegMul(if s.shift < 0 then -s.shift else 0, freq);
  }

  lemma DurationInCycles(s: Span, freq: nat)
    ensures var ns := if s.shift < 0 then -s.shift else s.shift;
            End(Scale(true, freq), s) - Start(Scale(true, freq), s) == (s.end - s.start) * 1_000_000_000 + ns * freq
  {
    NegMul(if s.shift < 0 then -s.shift else 0, freq);
  }

  /** The printed start is the start in cycles over the frequency, in ten-thousandths of a microsecond and off by at
  most half of one; a negative shift takes away ten of them for each nanosecond. */
  lemma StartInMicroseconds(s: Span, base: u64, freq: nat)
    requires freq > 0
    ensures var ns := if s.shift < 0 then -s.shift else 0;
            Near(2 * (PrintedStart(s, base, freq) * freq),
                 2 * ((s.start - base) * 10_000_000_000 + 10 * Neg(ns * freq)), freq)
  {
    hide Near, Printed, Start, At, Micro, Pow10;
    FourDigits();
    StartInCycles(s, base, freq);
    MicroPositive(freq);
    PrintedNear(Start(Scale(true, freq), s) - At(base), Micro(freq), DIGITS);
    var ns := if s.shift < 0 then -s.shift else 0;
    NearInMicroseconds(PrintedStart(s, base, freq), s.start - base, Neg(ns * freq), freq);
  }

  /** So is the printed duration, to which a shift adds, whichever side it is on. */
  lemma DurationInMicroseconds(s: Span, freq: nat)
    requires freq > 0
    ensures var ns := if s.shift < 0 then -s.shift else s.shift;
            Near(2 * (PrintedDuration(s, freq) * freq),
                 2 * ((s.end - s.start) * 10_000_000_000 + 10 * (ns * freq)), freq)
  {
    hide Near, Printed, Start, End, Micro, Pow10;
    FourDigits();
    DurationInCycles(s, freq);
    MicroPositive(freq);
    PrintedNear(End(Scale(true, freq), s) - Start(Scale(true, freq), s), Micro(freq), DIGITS);
    var ns := if s.shift < 0 then -s.shift else s.shift;
    NearInMicroseconds(PrintedDuration(s, freq), s.end - s.start, ns * freq, freq);
  }

  lemma MicroPositive(freq: nat)
    ensures freq > 0 ==> Micro(freq) > 0
  {
  }

  /** A thousand cycles at 1 GHz are a microsecond. */
  lemma MicrosecondExample()
    ensures var s := Span(F, 1000, 2000, 0);
            PrintedStart(s, 0, 1_000_000_000) == 10_000 && PrintedDuration(s, 1_000_000_000) == 10_000
  {
    FourDigits();
  }

  lemma NearSum(p: int, q: int, k: nat, x: int, y: int)
    requires Near(2 * (p * k), 2 * x, k) && Near(2 * (q * k), 2 * y, k)
    ensures Near((p + q) * k, x + y, k)
  {
    assert (p + q) * k == p * k + q * k;
  }

  /** A printed end, timestamp plus duration, is within a unit of the last place of the exact one. */
  lemma PrintedEndNear(s: Span, base: u64, freq: nat)
    requires freq > 0
    ensures Near(PrintedEnd(s, base, freq) * Micro(freq),
                 (End(Scale(true, freq), s) - At(base)) * 10_000,
                 Micro(freq))
  {
    var sc := Scale(true, freq);
    var start, dur := Start(sc, s) - At(base), End(sc, s) - Start(sc, s);
    FourDigits();
    PrintedNear(start, Micro(freq), DIGITS);
    PrintedNear(dur, Micro(freq), DIGITS);
    NearSum(PrintedStart(s, base, freq), PrintedDuration(s, freq), Micro(freq), start * 10_000, dur * 10_000);
  }

  /** Ends at least a nanosecond apart stay in strict order in print. */
  lemma StaggeredEndsPrintApart(a: Span, b: Span, base: u64, freq: nat)
    requires freq > 0 && End(Scale(true, freq), a) + freq <= End(Scale(true, freq), b)
    ensures PrintedEnd(a, base, freq) < PrintedEnd(b, base, freq)
  {
    PrintedEndNear(a, base, freq);
    PrintedEndNear(b, base, freq);
    CancelLt(PrintedEnd(a, base, freq), PrintedEnd(b, base, freq), Micro(freq));
  }

  lemma TimesExact(s: Span, base: u64, freq: nat, extraCall: nat, extraRet: nat)
    requires s.start <= s.end
    requires extraRet == (if s.shift > 0 then s.shift else 0) && extraCall == if s.shift > 0 then 0 else -s.shift
    ensures (s.start - base) * CYCLE - extraCall * freq == Start(Scale(true, freq), s) - At(base)
    ensures (s.end - s.start) * CYCLE + extraCall * freq + extraRet * freq
         == End(Scale(true, freq), s) - Start(Scale(true, freq), s)
    ensures Start(Scale(true, freq), s) <= End(Scale(true, freq), s)
  {
    NegMul(extraCall, freq);
    assert extraCall * freq >= 0 && extraRet * freq >= 0;
  }

  /** The times of one "X" event. */
  method PrintTimes(s: Span, base: u64, freq: nat) returns (ts: string, dur: string)
    requires freq > 0 && base <= s.start <= s.end
    ensures ReadDecimal(ts, DIGITS) == Some(PrintedStart(s, base, freq))
    ensures ReadDecimal(dur, DIGITS) == Some(PrintedDuration(s, freq))
    ensures ts != "" && ts[0] == '-' <==> BeforeBase(s, base, freq)
    ensures dur == "" || dur[0] != '-'
  {
    StartsBeforeBase(s, base, freq);
    var extraRet := if s.shift > 0 then s.shift else 0;
    var extraCall := if s.shift > 0 then 0 else -s.shift;
    var tsNum := (s.start - base) * CYCLE - extraCall * freq;
    var durNum := (s.end - s.start) * CYCLE + extraCall * freq + extraRet * freq;
    TimesExact(s, base, freq, extraCall, extraRet);
    ts := Rat2Dec(tsNum, 1000 * freq, DIGITS);
    dur := Rat2Dec(durNum, 1000 * freq, DIGITS);
  }

  // Timestamps before the time base.

  /** The call was displaced by more than it began after the time base. */
  predicate BeforeBase(s: Span, base: u64, freq: nat) {
    s.shift < 0 && (s.start - base) * CYCLE < Neg(s.shift) * freq
  }

  /** A call's timestamp is negative exactly if its start was displaced by more than it is after the time base. */
  lemma StartsBeforeBase(s: Span, base: u64, freq: nat)
    requires freq > 0
    ensures base <= s.start ==> (Start(Scale(true, freq), s) < At(base) <==> BeforeBase(s, base, freq))
  {
    NegMul(s.shift, freq);
  }

  /** Among the calls only the `n` orphan returns have displaced starts, by one to `n` nanoseconds. */
  ghost predicate OnlyOrphansDisplaced(earliest: u64, n: nat, spans: seq<Span>) {
    && (forall i :: 0 <= i < |spans| && spans[i].shift < 0 ==> spans[i].start == earliest && Neg(n) <= spans[i].shift)
    && (n > 0 ==> exists i :: 0 <= i < |spans| && spans[i].shift == Neg(n) && spans[i].start == earliest)
  }

  lemma NoneDisplaced(earliest: u64, n: nat, spans: seq<Span>, more: seq<Span>)
    requires OnlyOrphansDisplaced(earliest, n, spans) && forall i :: 0 <= i < |more| ==> more[i].shift >= 0
    ensures OnlyOrphansDisplaced(earliest, n, spans + more)
  {
    if n > 0 {
      var i :| 0 <= i < |spans| && spans[i].shift == Neg(n) && spans[i].start == earliest;
      assert (spans + more)[i] == spans[i];
    }
  }

  lemma OneDisplaced(earliest: u64, n: nat, spans: seq<Span>, s: Span)
    requires OnlyOrphansDisplaced(earliest, n, spans) && s.shift == Neg(n + 1) && s.start == earliest
    ensures OnlyOrphansDisplaced(earliest, n + 1, spans + [s])
  {
    assert (spans + [s])[|spans|] == s;
  }

  lemma StepDisplaces(tab: SymTab, earliest: u64, st: State, e: Entry)
    requires OnlyOrphansDisplaced(earliest, st.orphans, st.out)
    ensures var t := Step(tab, earliest, st, e); OnlyOrphansDisplaced(earliest, t.orphans, t.out)
  {
    hide OnlyOrphansDisplaced;
    match KindOf(e.address)
    case Call =>
    case Catch =>
      NoneDisplaced(earliest, st.orphans, st.out,
                    Close(tab, st.stack, Topmost(tab, st.stack, NameOf(tab, e), true) + 1, e.cycle, 1));
    case OwnReturn =>
      if st.stack == [] {
        OneDisplaced(earliest, st.orphans, st.out, Span(SymOf(tab, e), earliest, e.cycle, -(st.orphans + 1)));
      } else {
        NoneDisplaced(earliest, st.orphans, st.out, OwnReturnSpans(tab, st.stack, e));
      }
    case CallerReturn =>
      if st.stack == [] {
        OneDisplaced(earliest, st.orphans, st.out, Span(st.expecting, earliest, e.cycle, -(st.orphans + 1)));
      } else {
        NoneDisplaced(earliest, st.orphans, st.out,
                      Close(tab, st.stack, CallerReturnLow(tab, st.stack, e), e.cycle, 0));
      }
  }

  lemma {:induction false} RunDisplaces(tab: SymTab, earliest: u64, events: seq<Entry>)
    ensures var st := Run(tab, earliest, INIT, events); OnlyOrphansDisplaced(earliest, st.orphans, st.out)
    decreases |events|
  {
    if events != [] {
      var m := |events| - 1;
      RunDisplaces(tab, earliest, events[..m]);
      StepDisplaces(tab, earliest, Run(tab, earliest, INIT, events[..m]), events[m]);
    }
  }

  /** The orphan returns reach back before the time base. */
  predicate OrphansBeforeBase(tab: SymTab, events: seq<Entry>, earliest: u64, base: u64, freq: nat) {
    (earliest - base) * CYCLE < Run(tab, earliest, INIT, events).orphans * freq
  }

  /** Of a thread some call prints a negative timestamp exactly if there are more nanoseconds of orphan returns
  than there are between the time base and the thread's earliest cycle. */
  lemma OrphanBeforeBase(tab: SymTab, events: seq<Entry>, earliest: u64, latest: u64, base: u64, freq: nat)
    requires freq > 0 && base <= earliest && Sorted(events)
    requires forall i :: 0 <= i < |events| ==> earliest <= events[i].cycle <= latest
    ensures (exists i :: 0 <= i < |Decode(tab, events, earliest, latest)|
                         && Start(Scale(true, freq), Decode(tab, events, earliest, latest)[i]) < At(base))
       <==> OrphansBeforeBase(tab, events, earliest, base, freq)
  {
    hide Sorted, Decode, OnlyOrphansDisplaced;
    Laminar(tab, events, earliest, latest);
    DecodeDisplaces(tab, events, earliest, latest);
    DisplacedBefore(Decode(tab, events, earliest, latest), earliest, Run(tab, earliest, INIT, events).orphans, base,
                    freq);
  }

  lemma DecodeDisplaces(tab: SymTab, events: seq<Entry>, earliest: u64, latest: u64)
    ensures OnlyOrphansDisplaced(earliest, Run(tab, earliest, INIT, events).orphans,
                                 Decode(tab, events, earliest, latest))
  {
    hide OnlyOrphansDisplaced, Run;
    RunDisplaces(tab, earliest, events);
    var st := Run(tab, earliest, INIT, events);
    NoneDisplaced(earliest, st.orphans, st.out, Finish(tab, st.stack, latest));
  }

  lemma DisplacedBefore(spans: seq<Span>, earliest: u64, n: nat, base: u64, freq: nat)
    requires freq > 0 && base <= earliest && OnlyOrphansDisplaced(earliest, n, spans)
    requires forall i :: 0 <= i < |spans| ==> earliest <= spans[i].start
    ensures (exists i :: 0 <= i < |spans| && Start(Scale(true, freq), spans[i]) < At(base))
       <==> (earliest - base) * CYCLE < n * freq
  {
    hide Start, At;
    if n > 0 && (earliest - base) * CYCLE < n * freq {
      var i :| 0 <= i < |spans| && spans[i].shift == Neg(n) && spans[i].start == earliest;
      StartsBeforeBase(spans[i], base, freq);
    }
    forall i | 0 <= i < |spans| && Start(Scale(true, freq), spans[i]) < At(base)
      ensures (earliest - base) * CYCLE < n * freq
    {
      StartsBeforeBase(spans[i], base, freq);
      MulLe(Neg(spans[i].shift), n, freq);
    }
  }

  /** The least such input: a return of f without its call, at 1 GHz, prints a thousandth of a microsecond
  before zero. */
  lemma NegativeExample()
    ensures var spans := Decode(TAB, [Entry(Word(8, OwnReturn, false), 5)], 5, 5);
            spans == [Span(F, 5, 5, -1)] && PrintedStart(spans[0], 5, 1_000_000_000) == -10
  {
    WordRoundTrip(8, OwnReturn, false);
    var ret := Entry(Word(8, OwnReturn, false), 5);
    assert Run(TAB, 5, INIT, []) == INIT;
    RunLast(TAB, 5, [], ret, INIT);
    assert [] + [ret] == [ret];
    FourDigits();
  }
}
