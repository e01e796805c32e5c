/** Which windows the decoder gets right: conditions on how a program was built and what it did. */
module Windows {
  import opened Events
  import opened Decoder
  import opened CallRuns

  /** Return hooks log the returning function (gcc), not its caller (XRay). */
  predicate OwnReturns(acts: seq<Action>) {
    forall a :: a in acts && a.Leave? ==> KindOf(a.logged.address) == OwnReturn
  }

  predicate CallerReturns(acts: seq<Action>) {
    forall a :: a in acts && a.Leave? ==> KindOf(a.logged.address) == CallerReturn
  }

  predicate CatchFree(acts: seq<Action>) {
    forall a :: a in acts ==> !a.Unwind?
  }

  predicate TracedCatch(tab: SymTab, t: Truth, a: Action) {
    a.Unwind? && a.k < |t.Stack()| ==>
      && t.Below(a.k).traced
      && forall j :: 0 <= j < a.k && j < |t.inside| && t.Below(j).traced ==>
           NameOf(tab, t.Below(j).entry) != NameOf(tab, t.Below(a.k).entry)
  }

  /** Every catcher is traced, and none of the traced frames it unwinds shares its name. */
  predicate TracedCatchers(tab: SymTab, t: Truth, acts: seq<Action>) {
    acts == []
    || (TracedCatchers(tab, t, acts[..|acts| - 1])
        && TracedCatch(tab, After(tab, t, acts[..|acts| - 1]), acts[|acts| - 1]))
  }

  /** Every traced call still open in the window is marked as returning upon a throw (-finstrument-functions). */
  predicate MarkedCatch(t: Truth, a: Action) {
    a.Unwind? ==> forall f :: f in t.inside && f.traced ==> ReturnsUponThrow(f.entry.address)
  }

  /** Whenever something is caught, calls without a mark, like those the runtime itself logs, have returned. */
  predicate MarkedCatches(tab: SymTab, t: Truth, acts: seq<Action>) {
    acts == []
    || (MarkedCatches(tab, t, acts[..|acts| - 1])
        && MarkedCatch(After(tab, t, acts[..|acts| - 1]), acts[|acts| - 1]))
  }

  /** Calls without a mark return before anything else happens. */
  predicate UnmarkedReturnAtOnce(acts: seq<Action>) {
    forall i {:trigger acts[i].Enter?} :: 0 <= i && i + 1 < |acts| && acts[i].Enter? && Unmarked(acts[i].frame) ==>
      acts[i + 1].Leave?
  }

  predicate Unmarked(f: Frame) { f.traced && !ReturnsUponThrow(f.entry.address) }

  /** Each catch can be told, one way or the other. */
  predicate CatchTold(tab: SymTab, t: Truth, a: Action) { TracedCatch(tab, t, a) || MarkedCatch(t, a) }

  predicate CatchesTold(tab: SymTab, t: Truth, acts: seq<Action>) {
    acts == []
    || (CatchesTold(tab, t, acts[..|acts| - 1])
        && CatchTold(tab, After(tab, t, acts[..|acts| - 1]), acts[|acts| - 1]))
  }

  /** Whether a frame is traced depends on its function's name only. */
  predicate NameDecides(tab: SymTab, traced: set<string>, f: Frame) {
    f.traced <==> NameOf(tab, f.entry) in traced
  }

  predicate TracedByName(tab: SymTab, traced: set<string>, stack: seq<Frame>, acts: seq<Action>) {
    && (forall f :: f in stack ==> NameDecides(tab, traced, f))
    && forall a :: a in acts && a.Enter? ==> NameDecides(tab, traced, a.frame)
  }

  /** Returns tell what returned, or their callers can be told. */
  predicate ReturnsTold(tab: SymTab, traced: set<string>, stack: seq<Frame>, acts: seq<Action>) {
    OwnReturns(acts) || TracedByName(tab, traced, stack, acts)
  }

  predicate AllTraced(stack: seq<Frame>, acts: seq<Action>) {
    && (forall f :: f in stack ==> f.traced)
    && forall a :: a in acts && a.Enter? ==> a.frame.traced
  }

  /** Frames inside the window were entered in it, frames outside were there when it opened. */
  lemma {:induction false} WhereFramesComeFrom(tab: SymTab, stack: seq<Frame>, acts: seq<Action>)
    requires LegalRun(tab, Opening(stack), acts)
    ensures var t := After(tab, Opening(stack), acts);
            && t.outside <= stack
            && forall f :: f in t.inside ==> Enter(f) in acts
    decreases |acts|
  {
    if acts != [] {
      WhereFramesComeFrom(tab, stack, acts[..|acts| - 1]);
    }
  }

  lemma TracedCatchDecodable(tab: SymTab, t: Truth, k: nat, e: Entry)
    requires Legal(tab, t, Unwind(k, e)) && TracedCatch(tab, t, Unwind(k, e))
    ensures Decodable(tab, t, Unwind(k, e))
  {
    var n, m := |t.inside|, Surviving(t, k);
    var gone := Live(t.inside[m..]);
    forall i | 0 <= i < |gone| ensures NameOf(tab, gone[i]) != NameOf(tab, e) {
      var j := LiveMembers(t.inside[m..], i);
      assert t.Below(n - 1 - (m + j)) == t.inside[m + j];
    }
    if m > 0 {
      assert t.inside[..m][m - 1] == t.Below(k);
    }
  }

  lemma MarkedCatchDecodable(tab: SymTab, t: Truth, k: nat, e: Entry)
    requires Legal(tab, t, Unwind(k, e)) && MarkedCatch(t, Unwind(k, e))
    ensures Decodable(tab, t, Unwind(k, e))
  {
    var m := Surviving(t, k);
    var kept, gone := Live(t.inside[..m]), Live(t.inside[m..]);
    GoneUnmarked(tab, t, k, e);
    if gone != [] {
      var j := LiveMembers(t.inside[m..], 0);
      assert false;
    }
    if kept != [] {
      var j := LiveMembers(t.inside[..m], |kept| - 1);
      assert t.inside[..m][j] in t.inside;
    }
  }

  lemma NamedReturnDecodable(tab: SymTab, traced: set<string>, t: Truth, e: Entry)
    requires Legal(tab, t, Leave(e))
    requires forall f :: f in t.Stack() ==> NameDecides(tab, traced, f)
    ensures Decodable(tab, t, Leave(e))
  {
    var n := |t.inside|;
    if KindOf(e.address) == CallerReturn && n > 0 && t.Top().traced {
      var rest := Live(t.inside[..n - 1]);
      if rest != [] {
        var caller := t.Below(1);
        assert caller == t.inside[..n - 1][n - 2];
        if !caller.traced {
          forall i | 0 <= i < |rest| ensures NameOf(tab, rest[i]) != NameOf(tab, e) {
            var j := LiveMembers(t.inside[..n - 1], i);
            assert t.inside[j] in t.Stack() && caller in t.Stack();
          }
        }
      }
    }
  }

  lemma CatchDecodable(tab: SymTab, t: Truth, a: Action)
    requires a.Unwind? && Legal(tab, t, a) && CatchTold(tab, t, a)
    ensures Decodable(tab, t, a)
  {
    if TracedCatch(tab, t, a) {
      TracedCatchDecodable(tab, t, a.k, a.logged);
    } else {
      MarkedCatchDecodable(tab, t, a.k, a.logged);
    }
  }

  lemma StackNamed(tab: SymTab, traced: set<string>, stack: seq<Frame>, acts: seq<Action>)
    requires LegalRun(tab, Opening(stack), acts) && TracedByName(tab, traced, stack, acts)
    ensures forall f :: f in After(tab, Opening(stack), acts).Stack() ==> NameDecides(tab, traced, f)
  {
    WhereFramesComeFrom(tab, stack, acts);
    var t := After(tab, Opening(stack), acts);
    forall f | f in t.Stack() ensures NameDecides(tab, traced, f) {
      if f in t.inside {
        assert Enter(f) in acts && Enter(f).frame == f;
      } else {
        assert f in t.outside && f in stack;
      }
    }
  }

  lemma ReturnsToldFront(tab: SymTab, traced: set<string>, stack: seq<Frame>, acts: seq<Action>, m: nat)
    requires m <= |acts| && ReturnsTold(tab, traced, stack, acts)
    ensures ReturnsTold(tab, traced, stack, acts[..m])
  {
  }

  /** How a program is built is enough: returns that tell what returned or callers that can be told, and
  catches that can be told. Returns of both kinds may be mixed, and so may catches. */
  lemma {:induction false} ToldDecodable(tab: SymTab, traced: set<string>, stack: seq<Frame>, acts: seq<Action>)
    requires LegalRun(tab, Opening(stack), acts)
    requires ReturnsTold(tab, traced, stack, acts) && CatchesTold(tab, Opening(stack), acts)
    ensures DecodableRun(tab, Opening(stack), acts)
    decreases |acts|
  {
    hide Legal, Decodable, CatchTold, TracedByName, OwnReturns;
    if acts != [] {
      var m := |acts| - 1;
      var t := After(tab, Opening(stack), acts[..m]);
      ReturnsToldFront(tab, traced, stack, acts, m);
      ToldDecodable(tab, traced, stack, acts[..m]);
      match acts[m]
      case Enter(_) => EnterDecodable(tab, t, acts[m]);
      case Unwind(_, _) => CatchDecodable(tab, t, acts[m]);
      case Leave(e) => ReturnDecodable(tab, traced, stack, acts);
    }
  }

  lemma EnterDecodable(tab: SymTab, t: Truth, a: Action)
    requires a.Enter?
    ensures Decodable(tab, t, a)
  {
  }

  lemma ReturnDecodable(tab: SymTab, traced: set<string>, stack: seq<Frame>, acts: seq<Action>)
    requires acts != [] && acts[|acts| - 1].Leave? && LegalRun(tab, Opening(stack), acts)
    requires ReturnsTold(tab, traced, stack, acts)
    ensures Decodable(tab, After(tab, Opening(stack), acts[..|acts| - 1]), acts[|acts| - 1])
  {
    var m := |acts| - 1;
    assert acts[m] in acts;
    if !OwnReturns(acts) {
      StackNamed(tab, traced, stack, acts[..m]);
      NamedReturnDecodable(tab, traced, After(tab, Opening(stack), acts[..m]), acts[m].logged);
    }
  }

  lemma {:induction false} TracedTold(tab: SymTab, t: Truth, acts: seq<Action>)
    requires TracedCatchers(tab, t, acts)
    ensures CatchesTold(tab, t, acts)
    decreases |acts|
  {
    if acts != [] {
      TracedTold(tab, t, acts[..|acts| - 1]);
    }
  }

  lemma {:induction false} MarkedTold(tab: SymTab, t: Truth, acts: seq<Action>)
    requires MarkedCatches(tab, t, acts)
    ensures CatchesTold(tab, t, acts)
    decreases |acts|
  {
    if acts != [] {
      MarkedTold(tab, t, acts[..|acts| - 1]);
    }
  }

  lemma {:induction false} NothingCaught(tab: SymTab, t: Truth, acts: seq<Action>)
    requires CatchFree(acts)
    ensures TracedCatchers(tab, t, acts)
    decreases |acts|
  {
    if acts != [] {
      NothingCaught(tab, t, acts[..|acts| - 1]);
      assert acts[|acts| - 1] in acts;
    }
  }

  /** With own-address returns, a program is decoded right if its catchers are traced and tell themselves
  apart by name from what they unwind. */
  lemma TracedCatchersDecodable(tab: SymTab, stack: seq<Frame>, acts: seq<Action>)
    requires LegalRun(tab, Opening(stack), acts)
    requires OwnReturns(acts) && TracedCatchers(tab, Opening(stack), acts)
    ensures DecodableRun(tab, Opening(stack), acts)
  {
    TracedTold(tab, Opening(stack), acts);
    ToldDecodable(tab, {}, stack, acts);
  }

  /** With own-address returns, a program is decoded right, whoever catches, if calls without a mark have
  returned whenever something is caught. */
  lemma MarkedCatchesDecodable(tab: SymTab, stack: seq<Frame>, acts: seq<Action>)
    requires LegalRun(tab, Opening(stack), acts)
    requires OwnReturns(acts) && MarkedCatches(tab, Opening(stack), acts)
    ensures DecodableRun(tab, Opening(stack), acts)
  {
    MarkedTold(tab, Opening(stack), acts);
    ToldDecodable(tab, {}, stack, acts);
  }

  /** Whatever returns log, a program is decoded right through untraced callers, if being traced is a property
  of the function's name and catchers are traced and tell themselves apart from what they unwind. */
  lemma TracedByNameDecodable(tab: SymTab, traced: set<string>, stack: seq<Frame>, acts: seq<Action>)
    requires LegalRun(tab, Opening(stack), acts)
    requires TracedByName(tab, traced, stack, acts) && TracedCatchers(tab, Opening(stack), acts)
    ensures DecodableRun(tab, Opening(stack), acts)
  {
    TracedTold(tab, Opening(stack), acts);
    ToldDecodable(tab, traced, stack, acts);
  }

  lemma CatchFreeDecodable(tab: SymTab, traced: set<string>, stack: seq<Frame>, acts: seq<Action>)
    requires LegalRun(tab, Opening(stack), acts)
    requires CatchFree(acts) && TracedByName(tab, traced, stack, acts)
    ensures DecodableRun(tab, Opening(stack), acts)
  {
    NothingCaught(tab, Opening(stack), acts);
    TracedByNameDecodable(tab, traced, stack, acts);
  }

  /** Only a call that was entered last may be without a mark. */
  ghost predicate OnlyLastUnmarked(t: Truth, acts: seq<Action>) {
    forall j :: 0 <= j < |t.inside| && Unmarked(t.inside[j]) ==>
      j == |t.inside| - 1 && acts != [] && acts[|acts| - 1] == Enter(t.inside[j])
  }

  /** Calls that return at once have returned when something is caught. */
  lemma {:induction false} AtOnceMarked(tab: SymTab, stack: seq<Frame>, acts: seq<Action>)
    requires LegalRun(tab, Opening(stack), acts) && UnmarkedReturnAtOnce(acts)
    ensures MarkedCatches(tab, Opening(stack), acts)
    ensures OnlyLastUnmarked(After(tab, Opening(stack), acts), acts)
    decreases |acts|
  {
    hide Legal;
    if acts != [] {
      var m := |acts| - 1;
      var t := After(tab, Opening(stack), acts[..m]);
      AtOnceMarked(tab, stack, acts[..m]);
      if m > 0 {
        assert acts[m - 1] == acts[..m][m - 1];
        assert acts[m - 1].Enter? && Unmarked(acts[m - 1].frame) ==> acts[m].Leave?;
      }
    }
  }

  // A catcher that is not traced.

  /** What the actions lead to. */
  ghost predicate Reaches(tab: SymTab, earliest: u64, acts: seq<Action>, inside: seq<Frame>, spans: seq<Span>) {
    && LegalRun(tab, Opening([]), acts)
    && After(tab, Opening([]), acts) == Opening([]).(inside := inside)
    && CompletedBy(tab, earliest, Opening([]), acts) == spans
  }

  lemma Entered(tab: SymTab, earliest: u64, acts: seq<Action>, n: nat, inside: seq<Frame>, spans: seq<Span>, f: Frame)
    requires n < |acts| && Reaches(tab, earliest, acts[..n], inside, spans)
    requires acts[n] == Enter(f) && KindOf(f.entry.address) == Call
    ensures Reaches(tab, earliest, acts[..n + 1], inside + [f], spans)
  {
    assert acts[..n + 1][..n] == acts[..n];
  }

  lemma Left(tab: SymTab, earliest: u64, acts: seq<Action>, n: nat, inside: seq<Frame>, spans: seq<Span>, f: Frame,
             e: Entry)
    requires n < |acts| && Reaches(tab, earliest, acts[..n], inside + [f], spans)
    requires acts[n] == Leave(e) && KindOf(e.address) == OwnReturn && NameOf(tab, e) == NameOf(tab, f.entry)
    ensures Reaches(tab, earliest, acts[..n + 1], inside,
                    spans + if f.traced then [Span(SymOf(tab, f.entry), f.entry.cycle, e.cycle, 0)] else [])
  {
    var t := After(tab, Opening([]), acts[..n]);
    assert acts[..n + 1][..n] == acts[..n];
    assert t.Top() == f && t.inside[..|inside|] == inside;
  }

  lemma CaughtOnTop(tab: SymTab, earliest: u64, acts: seq<Action>, n: nat, inside: seq<Frame>, spans: seq<Span>,
                    e: Entry)
    requires n < |acts| && Reaches(tab, earliest, acts[..n], inside, spans) && inside != []
    requires acts[n] == Unwind(0, e)
    requires KindOf(e.address) == Catch && NameOf(tab, e) == NameOf(tab, inside[|inside| - 1].entry)
    ensures Reaches(tab, earliest, acts[..n + 1], inside, spans)
  {
    assert acts[..n + 1][..n] == acts[..n];
    assert inside[..|inside|] == inside && inside[|inside|..] == [];
  }

  lemma NothingReached(tab: SymTab, earliest: u64, acts: seq<Action>)
    ensures Reaches(tab, earliest, acts[..0], [], [])
  {
  }

  const CALLER: Sym := Sym("caller", 8)
  const CATCHER: Sym := Sym("catcher", 16)
  const THROWER: Sym := Sym("thrower", 24)
  const CXA_THROW: Sym := Sym("__cxa_throw", 32)
  const CXA_BEGIN: Sym := Sym("__cxa_begin_catch", 40)
  const NAMES: SymTab := map[8 := CALLER, 16 := CATCHER, 24 := THROWER, 32 := CXA_THROW, 40 := CXA_BEGIN]

  function CallTo(ptr: u64, marked: bool, traced: bool, cycle: u64): Frame
    requires ptr < BIT_61
  {
    Frame(Entry(Word(ptr, Call, marked), cycle), traced)
  }

  function ReturnOf(ptr: u64, cycle: u64): Action
    requires ptr < BIT_61
  {
    Leave(Entry(Word(ptr, OwnReturn, false), cycle))
  }

  /** An untraced catcher calls a thrower; the runtime's own calls are not marked, all others are. */
  function UntracedCatcher(): seq<Action> {
    [Enter(CallTo(8, true, true, 1)), Enter(CallTo(16, true, false, 2)), Enter(CallTo(24, true, true, 3)),
     Enter(CallTo(32, false, true, 4)), ReturnOf(32, 5), ReturnOf(24, 6), Unwind(0, Entry(Word(16, Catch, false), 7)),
     Enter(CallTo(40, false, true, 8)), ReturnOf(40, 9), ReturnOf(16, 10), ReturnOf(8, 11)]
  }

  lemma CallWord(ptr: u64, marked: bool, cycle: u64)
    requires ptr < BIT_61
    ensures var e := Entry(Word(ptr, Call, marked), cycle);
            KindOf(e.address) == Call && SymOf(NAMES, e) == SymAt(NAMES, ptr) && ReturnsUponThrow(e.address) == marked
  {
    WordRoundTrip(ptr, Call, marked);
  }

  lemma OtherWord(ptr: u64, kind: Kind, cycle: u64)
    requires ptr < BIT_61 && kind != Call
    ensures var e := Entry(Word(ptr, kind, false), cycle);
            KindOf(e.address) == kind && SymOf(NAMES, e) == SymAt(NAMES, ptr)
  {
    WordRoundTrip(ptr, kind, false);
  }

  lemma UntracedCatcherWords()
    ensures UnmarkedReturnAtOnce(UntracedCatcher()) && OwnReturns(UntracedCatcher())
  {
    hide KindOf, Word, ReturnsUponThrow;
    CallWord(8, true, 1);
    CallWord(16, true, 2);
    CallWord(24, true, 3);
    OtherWord(32, OwnReturn, 5);
    OtherWord(24, OwnReturn, 6);
    OtherWord(40, OwnReturn, 9);
    OtherWord(16, OwnReturn, 10);
    OtherWord(8, OwnReturn, 11);
  }

  lemma ThrowReached()
    ensures Reaches(NAMES, 1, UntracedCatcher()[..6], [CallTo(8, true, true, 1), CallTo(16, true, false, 2)],
                    [Span(CXA_THROW, 4, 5, 0), Span(THROWER, 3, 6, 0)])
  {
    hide KindOf, Word, Reaches, SymOf;
    var caller, catcher, thrower := CallTo(8, true, true, 1), CallTo(16, true, false, 2), CallTo(24, true, true, 3);
    var throwing := CallTo(32, false, true, 4);
    CallWord(8, true, 1);
    CallWord(16, true, 2);
    CallWord(24, true, 3);
    CallWord(32, false, 4);
    OtherWord(32, OwnReturn, 5);
    OtherWord(24, OwnReturn, 6);
    var acts, thrown := UntracedCatcher(), [Span(CXA_THROW, 4, 5, 0)];
    NothingReached(NAMES, 1, acts);
    Entered(NAMES, 1, acts, 0, [], [], caller);
    Entered(NAMES, 1, acts, 1, [caller], [], catcher);
    Entered(NAMES, 1, acts, 2, [caller, catcher], [], thrower);
    Entered(NAMES, 1, acts, 3, [caller, catcher, thrower], [], throwing);
    Left(NAMES, 1, acts, 4, [caller, catcher, thrower], [], throwing, acts[4].logged);
    assert [] + thrown == thrown;
    Left(NAMES, 1, acts, 5, [caller, catcher], thrown, thrower, acts[5].logged);
    assert thrown + [Span(THROWER, 3, 6, 0)] == [Span(CXA_THROW, 4, 5, 0), Span(THROWER, 3, 6, 0)];
  }

  lemma UntracedCatcherReaches()
    ensures Reaches(NAMES, 1, UntracedCatcher(), [],
                    [Span(CXA_THROW, 4, 5, 0), Span(THROWER, 3, 6, 0), Span(CXA_BEGIN, 8, 9, 0),
                     Span(CALLER, 1, 11, 0)])
  {
    hide KindOf, Word, Reaches, SymOf;
    var caller, catcher, beginning := CallTo(8, true, true, 1), CallTo(16, true, false, 2), CallTo(40, false, true, 8);
    CallWord(8, true, 1);
    CallWord(16, true, 2);
    CallWord(40, false, 8);
    OtherWord(16, Catch, 7);
    OtherWord(40, OwnReturn, 9);
    OtherWord(16, OwnReturn, 10);
    OtherWord(8, OwnReturn, 11);
    var acts := UntracedCatcher();
    var thrown := [Span(CXA_THROW, 4, 5, 0), Span(THROWER, 3, 6, 0)];
    var caught := thrown + [Span(CXA_BEGIN, 8, 9, 0)];
    ThrowReached();
    CaughtOnTop(NAMES, 1, acts, 6, [caller, catcher], thrown, acts[6].logged);
    Entered(NAMES, 1, acts, 7, [caller, catcher], thrown, beginning);
    Left(NAMES, 1, acts, 8, [caller, catcher], thrown, beginning, acts[8].logged);
    Left(NAMES, 1, acts, 9, [caller], caught, catcher, acts[9].logged);
    assert caught + [] == caught;
    Left(NAMES, 1, acts, 10, [], caught, caller, acts[10].logged);
    assert acts[..11] == acts;
    assert caught + [Span(CALLER, 1, 11, 0)]
        == [Span(CXA_THROW, 4, 5, 0), Span(THROWER, 3, 6, 0), Span(CXA_BEGIN, 8, 9, 0), Span(CALLER, 1, 11, 0)];
  }

  /** The catcher is missing from the decoded calls, and nothing else is disturbed. */
  lemma UntracedCatcherDecoded()
    ensures LegalRun(NAMES, Opening([]), UntracedCatcher())
    ensures Decode(NAMES, LogOf(NAMES, Opening([]), UntracedCatcher()), 1, 11)
         == [Span(CXA_THROW, 4, 5, 0), Span(THROWER, 3, 6, 0), Span(CXA_BEGIN, 8, 9, 0), Span(CALLER, 1, 11, 0)]
  {
    hide UntracedCatcher, Decode, DecodableRun, LogOf, UnmarkedReturnAtOnce, OwnReturns;
    UntracedCatcherWords();
    UntracedCatcherReaches();
    AtOnceMarked(NAMES, [], UntracedCatcher());
    MarkedCatchesDecodable(NAMES, [], UntracedCatcher());
    WindowDecoded(NAMES, 1, 11, [], UntracedCatcher());
  }

  // Returns that tell their callers.

  lemma LeftInto(tab: SymTab, earliest: u64, acts: seq<Action>, n: nat, f: Frame, g: Frame, e: Entry)
    requires n < |acts| && Reaches(tab, earliest, acts[..n], [f, g], []) && f.traced && g.traced
    requires acts[n] == Leave(e) && KindOf(e.address) == CallerReturn && NameOf(tab, e) == NameOf(tab, f.entry)
    ensures LegalRun(tab, Opening([]), acts[..n + 1])
    ensures After(tab, Opening([]), acts[..n + 1]) == Truth([], [f], SymOf(tab, e), 0)
    ensures CompletedBy(tab, earliest, Opening([]), acts[..n + 1])
         == [Span(SymOf(tab, g.entry), g.entry.cycle, e.cycle, 0)]
  {
    var t := After(tab, Opening([]), acts[..n]);
    assert acts[..n + 1][..n] == acts[..n];
    assert t.Top() == g && t.Below(1) == f && t.inside[..1] == [f];
  }

  /** The caller calls the thrower, which returns into it, as XRay logs that. */
  function IntoCaller(): seq<Action> {
    [Enter(CallTo(8, false, true, 1)), Enter(CallTo(24, false, true, 2)),
     Leave(Entry(Word(8, CallerReturn, false), 3))]
  }

  lemma IntoCallerDecoded()
    ensures LegalRun(NAMES, Opening([]), IntoCaller())
    ensures Decode(NAMES, LogOf(NAMES, Opening([]), IntoCaller()), 1, 3)
         == [Span(THROWER, 2, 3, 0), Span(CALLER, 1, 3, 1)]
  {
    hide KindOf, Word, SymOf, Reaches, Decode, LogOf, LegalRun, CompletedBy, After, DecodableRun;
    var acts := IntoCaller();
    var f, g := CallTo(8, false, true, 1), CallTo(24, false, true, 2);
    CallWord(8, false, 1);
    CallWord(24, false, 2);
    OtherWord(8, CallerReturn, 3);
    NothingReached(NAMES, 1, acts);
    Entered(NAMES, 1, acts, 0, [], [], f);
    Entered(NAMES, 1, acts, 1, [f], [], g);
    assert [] + [f] == [f] && [f] + [g] == [f, g];
    LeftInto(NAMES, 1, acts, 2, f, g, acts[2].logged);
    assert acts[..3] == acts;
    IntoCallerTraced();
    CatchFreeDecodable(NAMES, {"caller", "thrower"}, [], acts);
    WindowDecoded(NAMES, 1, 3, [], acts);
    OneOpen(NAMES, f, 3);
  }

  lemma IntoCallerTraced()
    ensures CatchFree(IntoCaller()) && TracedByName(NAMES, {"caller", "thrower"}, [], IntoCaller())
  {
    hide KindOf, Word;
    CallWord(8, false, 1);
    CallWord(24, false, 2);
  }

  lemma OneOpen(tab: SymTab, f: Frame, latest: u64)
    requires f.traced
    ensures Finish(tab, Live([f]), latest) == [Span(SymOf(tab, f.entry), f.entry.cycle, latest, 1)]
  {
    assert [f][..0] == [] && Live([f]) == [f.entry];
  }

  /** Fully traced and with caller-address returns, whenever nothing entered in the window is running
  the expected function is the one on top of the true stack, unless nothing has happened yet. */
  lemma ExpectingTop(tab: SymTab, stack: seq<Frame>, acts: seq<Action>)
    requires LegalRun(tab, Opening(stack), acts)
    requires CatchFree(acts) && CallerReturns(acts) && AllTraced(stack, acts)
    requires After(tab, Opening(stack), acts).inside == []
    ensures var t := After(tab, Opening(stack), acts);
            if acts == [] then t.last == UNKNOWN_SYM
            else t.Stack() != [] ==> t.last.func == NameOf(tab, t.Top().entry)
  {
    if acts != [] {
      var m := |acts| - 1;
      var u := After(tab, Opening(stack), acts[..m]);
      WhereFramesComeFrom(tab, stack, acts[..m]);
      assert acts[m] in acts;
      assert acts[m].Leave?;
      assert u.Top().traced by {
        if u.inside != [] {
          assert u.Top() in u.inside && Enter(u.Top()) in acts;
        } else {
          assert u.Top() in stack;
        }
      }
      ReturnNamesTop(tab, u, acts[m].logged);
    }
  }

  lemma ReturnNamesTop(tab: SymTab, u: Truth, e: Entry)
    requires Legal(tab, u, Leave(e)) && u.Top().traced && KindOf(e.address) == CallerReturn
    ensures var t := Advance(tab, u, Leave(e));
            t.Stack() != [] ==> t.last.func == NameOf(tab, t.Top().entry)
  {
    AdvanceStack(tab, u, Leave(e));
  }

  lemma OrphanCompleted(tab: SymTab, earliest: u64, t: Truth, e: Entry)
    requires t.inside == [] && t.TopTraced()
    ensures Completed(tab, earliest, t, Leave(e))
         == [Span(if KindOf(e.address) == OwnReturn then SymOf(tab, e) else t.last,
                  earliest, e.cycle, -(t.orphans + 1))]
  {
  }

  lemma OutsideTop(tab: SymTab, t: Truth, stack: seq<Frame>, e: Entry)
    requires Legal(tab, t, Leave(e)) && t.inside == [] && t.outside <= stack
    ensures t.Stack() != [] && t.Top() in stack
  {
  }

  /** An orphan return is named after the function that really returned, except for the first event of
  the window, which is named "??". */
  lemma OrphanNamed(tab: SymTab, earliest: u64, stack: seq<Frame>, acts: seq<Action>, e: Entry)
    requires LegalRun(tab, Opening(stack), acts)
    requires CatchFree(acts) && CallerReturns(acts) && AllTraced(stack, acts)
    requires var t := After(tab, Opening(stack), acts);
             && t.inside == [] && Legal(tab, t, Leave(e)) && KindOf(e.address) == CallerReturn
    ensures var t := After(tab, Opening(stack), acts);
            && Completed(tab, earliest, t, Leave(e)) == [Span(t.last, earliest, e.cycle, -(t.orphans + 1))]
            && t.last.func == if acts == [] then "??" else NameOf(tab, t.Top().entry)
  {
    hide Legal, Advance, CatchFree, CallerReturns, LegalRun, Completed;
    var t := After(tab, Opening(stack), acts);
    ExpectingTop(tab, stack, acts);
    WhereFramesComeFrom(tab, stack, acts);
    OutsideTop(tab, t, stack, e);
    OrphanCompleted(tab, earliest, t, e);
  }

  /** With own-address returns every orphan is named after the function that returned. */
  lemma OwnOrphanNamed(tab: SymTab, earliest: u64, t: Truth, e: Entry)
    requires Legal(tab, t, Leave(e)) && t.inside == [] && t.TopTraced() && KindOf(e.address) == OwnReturn
    ensures var spans := Completed(tab, earliest, t, Leave(e));
            |spans| == 1 && spans[0].sym.func == NameOf(tab, t.Top().entry)
  {
    OrphanCompleted(tab, earliest, t, e);
  }

  // A window of the log of a longer run.

  /** Frames of `t` all count as outside in `u`. */
  ghost predicate SameStack(t: Truth, u: Truth) { t.Stack() == u.Stack() }

  lemma SameStep(tab: SymTab, t: Truth, u: Truth, a: Action)
    requires SameStack(t, u) && Legal(tab, t, a)
    ensures Logged(t, a) == Logged(u, a)
    ensures SameStack(Advance(tab, t, a), Advance(tab, u, a))
  {
    AdvanceStack(tab, t, a);
    AdvanceStack(tab, u, a);
  }

  lemma AdvanceStack(tab: SymTab, t: Truth, a: Action)
    requires Legal(tab, t, a)
    ensures Advance(tab, t, a).Stack() == NextStack(t.Stack(), a)
  {
  }

  function NextStack(stack: seq<Frame>, a: Action): seq<Frame>
    requires a.Leave? ==> stack != []
    requires a.Unwind? ==> a.k <= |stack|
  {
    match a
    case Enter(f) => stack + [f]
    case Leave(_) => stack[..|stack| - 1]
    case Unwind(k, _) => stack[..|stack| - k]
  }

  lemma {:induction false} SameRun(tab: SymTab, t: Truth, u: Truth, acts: seq<Action>)
    requires SameStack(t, u) && LegalRun(tab, t, acts)
    ensures LegalRun(tab, u, acts)
    ensures LogOf(tab, t, acts) == LogOf(tab, u, acts)
    ensures SameStack(After(tab, t, acts), After(tab, u, acts))
    decreases |acts|
  {
    if acts != [] {
      var m := |acts| - 1;
      SameRun(tab, t, u, acts[..m]);
      SameStep(tab, After(tab, t, acts[..m]), After(tab, u, acts[..m]), acts[m]);
    }
  }

  lemma {:induction false} AfterSplits(tab: SymTab, t: Truth, a: seq<Action>, b: seq<Action>)
    ensures After(tab, t, a + b) == After(tab, After(tab, t, a), b)
    decreases |b|
  {
    hide Legal, Logged, Advance;
    if b == [] {
      assert a + b == a;
    } else {
      var m := |b| - 1;
      assert (a + b)[..|a + b| - 1] == a + b[..m];
      AfterSplits(tab, t, a, b[..m]);
    }
  }

  lemma {:induction false} RunSplits(tab: SymTab, t: Truth, a: seq<Action>, b: seq<Action>)
    requires LegalRun(tab, t, a + b)
    ensures LegalRun(tab, t, a) && LegalRun(tab, After(tab, t, a), b)
    ensures LogOf(tab, t, a + b) == LogOf(tab, t, a) + LogOf(tab, After(tab, t, a), b)
    decreases |b|
  {
    hide Legal, Logged, Advance;
    if b == [] {
      assert a + b == a;
    } else {
      var m := |b| - 1;
      assert (a + b)[..|a + b| - 1] == a + b[..m];
      RunSplits(tab, t, a, b[..m]);
      AfterSplits(tab, t, a, b[..m]);
    }
  }

  /** How many actions it took to log all but the last `n` events. */
  function SplitPoint(tab: SymTab, t: Truth, acts: seq<Action>, n: nat): (i: nat)
    ensures i <= |acts|
  {
    if n == 0 || acts == [] then |acts|
    else
      var m := |acts| - 1;
      var last := |Logged(After(tab, t, acts[..m]), acts[m])|;
      SplitPoint(tab, t, acts[..m], if last <= n then n - last else 0)
  }

  lemma {:induction false} SplitPointLog(tab: SymTab, t: Truth, acts: seq<Action>, n: nat)
    requires n <= |LogOf(tab, t, acts)|
    ensures |LogOf(tab, t, acts[..SplitPoint(tab, t, acts, n)])| == |LogOf(tab, t, acts)| - n
    decreases |acts|
  {
    hide LogOf, Logged, After, SplitPoint;
    if n == 0 || acts == [] {
      SplitPointEnd(tab, t, acts, n);
    } else {
      var m := |acts| - 1;
      SplitPointBack(tab, t, acts, n);
      SplitPointLog(tab, t, acts[..m], n - LastLogged(tab, t, acts));
      var i := SplitPoint(tab, t, acts, n);
      assert acts[..m][..i] == acts[..i];
    }
  }

  /** How many events the last action logged, none or one. */
  function LastLogged(tab: SymTab, t: Truth, acts: seq<Action>): (n: nat)
    requires acts != []
    ensures n <= 1
  {
    |Logged(After(tab, t, acts[..|acts| - 1]), acts[|acts| - 1])|
  }

  lemma SplitPointEnd(tab: SymTab, t: Truth, acts: seq<Action>, n: nat)
    requires (n == 0 || acts == []) && n <= |LogOf(tab, t, acts)|
    ensures n == 0 && acts[..SplitPoint(tab, t, acts, n)] == acts
  {
  }

  lemma SplitPointBack(tab: SymTab, t: Truth, acts: seq<Action>, n: nat)
    requires 0 < n <= |LogOf(tab, t, acts)| && acts != []
    ensures var m := |acts| - 1;
            && |LogOf(tab, t, acts)| == |LogOf(tab, t, acts[..m])| + LastLogged(tab, t, acts)
            && SplitPoint(tab, t, acts, n) == SplitPoint(tab, t, acts[..m], n - LastLogged(tab, t, acts)) <= m
  {
    hide After, Logged;
  }

  /** The stack the window of the last `n` events opens on, and its actions. */
  function WindowStack(tab: SymTab, stack: seq<Frame>, acts: seq<Action>, n: nat): seq<Frame> {
    After(tab, Opening(stack), acts[..SplitPoint(tab, Opening(stack), acts, n)]).Stack()
  }

  function WindowActs(tab: SymTab, stack: seq<Frame>, acts: seq<Action>, n: nat): seq<Action> {
    acts[SplitPoint(tab, Opening(stack), acts, n)..]
  }

  /** The last `n` events a run logged are a window of it: what the actions from some point on logged,
  starting from the stack at that point. */
  lemma LogSuffixIsWindow(tab: SymTab, stack: seq<Frame>, acts: seq<Action>, n: nat)
    requires LegalRun(tab, Opening(stack), acts)
    requires n <= |LogOf(tab, Opening(stack), acts)|
    ensures var window, log := Opening(WindowStack(tab, stack, acts, n)), LogOf(tab, Opening(stack), acts);
            && LegalRun(tab, window, WindowActs(tab, stack, acts, n))
            && LogOf(tab, window, WindowActs(tab, stack, acts, n)) == log[|log| - n..]
  {
    hide LegalRun, LogOf, After, SplitPoint;
    var t := Opening(stack);
    var i := SplitPoint(tab, t, acts, n);
    SplitPointLog(tab, t, acts, n);
    assert acts == acts[..i] + acts[i..];
    RunSplits(tab, t, acts[..i], acts[i..]);
    SameRun(tab, After(tab, t, acts[..i]), Opening(WindowStack(tab, stack, acts, n)), acts[i..]);
  }

  // All windows of a run.

  lemma ReturnsToldBack(tab: SymTab, traced: set<string>, stack: seq<Frame>, acts: seq<Action>, i: nat)
    requires i <= |acts| && LegalRun(tab, Opening(stack), acts[..i]) && ReturnsTold(tab, traced, stack, acts)
    ensures ReturnsTold(tab, traced, After(tab, Opening(stack), acts[..i]).Stack(), acts[i..])
  {
    if !OwnReturns(acts) {
      StackNamed(tab, traced, stack, acts[..i]);
    }
  }

  lemma FewerInside(t: Truth, u: Truth)
    requires SameStack(t, u) && |u.inside| <= |t.inside|
    ensures forall f :: f in u.inside ==> f in t.inside
  {
    var d := |t.inside| - |u.inside|;
    assert forall i :: 0 <= i < |u.inside| ==> u.inside[i] == u.Stack()[|u.outside| + i] == t.inside[d + i];
  }

  lemma TracedCatchInside(tab: SymTab, t: Truth, u: Truth, a: Action)
    requires SameStack(t, u) && |u.inside| <= |t.inside| && TracedCatch(tab, t, a)
    ensures TracedCatch(tab, u, a)
  {
    if a.Unwind? && a.k < |u.Stack()| {
      assert forall j :: 0 <= j < |u.Stack()| ==> u.Below(j) == t.Below(j);
    }
  }

  lemma AdvanceInside(tab: SymTab, t: Truth, u: Truth, a: Action)
    requires SameStack(t, u) && |u.inside| <= |t.inside|
    ensures |Advance(tab, u, a).inside| <= |Advance(tab, t, a).inside|
  {
  }

  /** What was entered before a window does not make its catches harder to tell. */
  lemma ToldStepInside(tab: SymTab, t: Truth, u: Truth, a: Action)
    requires SameStack(t, u) && |u.inside| <= |t.inside| && CatchTold(tab, t, a)
    ensures CatchTold(tab, u, a) && |Advance(tab, u, a).inside| <= |Advance(tab, t, a).inside|
  {
    hide TracedCatch, Advance, SameStack;
    FewerInside(t, u);
    AdvanceInside(tab, t, u, a);
    if TracedCatch(tab, t, a) {
      TracedCatchInside(tab, t, u, a);
    }
  }

  lemma {:induction false} ToldInside(tab: SymTab, t: Truth, u: Truth, acts: seq<Action>)
    requires SameStack(t, u) && |u.inside| <= |t.inside| && LegalRun(tab, t, acts) && CatchesTold(tab, t, acts)
    ensures CatchesTold(tab, u, acts) && |After(tab, u, acts).inside| <= |After(tab, t, acts).inside|
    decreases |acts|
  {
    hide Legal, CatchTold, Advance, LogOf, Logged;
    if acts != [] {
      var m := |acts| - 1;
      ToldInside(tab, t, u, acts[..m]);
      SameRun(tab, t, u, acts[..m]);
      ToldStepInside(tab, After(tab, t, acts[..m]), After(tab, u, acts[..m]), acts[m]);
    }
  }

  lemma {:induction false} ToldSplits(tab: SymTab, t: Truth, a: seq<Action>, b: seq<Action>)
    requires CatchesTold(tab, t, a + b)
    ensures CatchesTold(tab, After(tab, t, a), b)
    decreases |b|
  {
    hide CatchTold, Advance;
    if b != [] {
      var m := |b| - 1;
      assert (a + b)[..|a + b| - 1] == a + b[..m];
      ToldSplits(tab, t, a, b[..m]);
      AfterSplits(tab, t, a, b[..m]);
    }
  }

  /** A program is built, and catches, so that it can be decoded. */
  ghost predicate Built(tab: SymTab, traced: set<string>, stack: seq<Frame>, acts: seq<Action>) {
    ReturnsTold(tab, traced, stack, acts) && CatchesTold(tab, Opening(stack), acts)
  }

  /** Every window of the log of such a program is decodable, wherever it begins. */
  lemma WindowsDecodable(tab: SymTab, traced: set<string>, stack: seq<Frame>, acts: seq<Action>, n: nat)
    requires LegalRun(tab, Opening(stack), acts) && Built(tab, traced, stack, acts)
    requires n <= |LogOf(tab, Opening(stack), acts)|
    ensures DecodableRun(tab, Opening(WindowStack(tab, stack, acts, n)), WindowActs(tab, stack, acts, n))
  {
    hide LegalRun, LogOf, After, SplitPoint, CatchesTold, ReturnsTold, DecodableRun;
    var t := Opening(stack);
    var i := SplitPoint(tab, t, acts, n);
    assert acts == acts[..i] + acts[i..];
    RunSplits(tab, t, acts[..i], acts[i..]);
    LogSuffixIsWindow(tab, stack, acts, n);
    ReturnsToldBack(tab, traced, stack, acts, i);
    ToldSplits(tab, t, acts[..i], acts[i..]);
    ToldInside(tab, After(tab, t, acts[..i]), Opening(WindowStack(tab, stack, acts, n)), acts[i..]);
    ToldDecodable(tab, traced, WindowStack(tab, stack, acts, n), acts[i..]);
  }
}
