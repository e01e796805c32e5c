/** Programs that jump: frames are dropped and nothing is logged, as by longjmp. The decoder goes on with frames that
are dead, until a return makes it pop down to its own frame. */
module Jumps {
  import opened Events
  import opened Decoder
  import opened CallRuns
  import Timeline

  /** A frame entered in the window and not returned from; dead if it was jumped over. */
  datatype Shade = Shade(frame: Frame, dead: bool)

  datatype Move =
    | Called(frame: Frame)
    | Returned(logged: Entry)
    | Jumped(k: nat)          // drops the top `k` frames that are alive

  /** Frames entered before the window, those entered in it, and how many of the former returned. */
  datatype World = World(outside: seq<Frame>, shades: seq<Shade>, orphans: nat)

  function Opened(stack: seq<Frame>): World { World(stack, [], 0) }

  function Frames(shades: seq<Shade>): (frames: seq<Frame>)
    ensures |frames| == |shades| && forall i :: 0 <= i < |shades| ==> frames[i] == shades[i].frame
  {
    seq(|shades|, i requires 0 <= i < |shades| => shades[i].frame)
  }

  /** What the decoder can know of. */
  function Known(shades: seq<Shade>): seq<Entry> { Live(Frames(shades)) }

  /** What is really there. */
  function Alive(shades: seq<Shade>): seq<Frame> {
    if shades == [] then []
    else
      var s := shades[|shades| - 1];
      Alive(shades[..|shades| - 1]) + if s.dead then [] else [s.frame]
  }

  /** The topmost frame that is alive, -1 if none. */
  function TopAlive(shades: seq<Shade>): (i: int)
    ensures -1 <= i < |shades|
    ensures i >= 0 ==> !shades[i].dead
    ensures forall j :: i < j < |shades| ==> shades[j].dead
  {
    if shades == [] then -1
    else if !shades[|shades| - 1].dead then |shades| - 1
    else TopAlive(shades[..|shades| - 1])
  }

  /** The frame that returns next. */
  function Top(w: World): Frame
    requires TopAlive(w.shades) >= 0 || w.outside != []
  {
    if TopAlive(w.shades) >= 0 then w.shades[TopAlive(w.shades)].frame else w.outside[|w.outside| - 1]
  }

  /** The top `k` frames that are alive die. */
  function Killed(shades: seq<Shade>, k: nat): (killed: seq<Shade>)
    ensures |killed| == |shades| && Frames(killed) == Frames(shades)
  {
    if k == 0 || shades == [] then shades
    else
      var s := shades[|shades| - 1];
      Killed(shades[..|shades| - 1], if s.dead then k else k - 1) + [s.(dead := true)]
  }

  function Leaving(w: World): World {
    var i := TopAlive(w.shades);
    if i >= 0 then
      w.(shades := w.shades[..i] + if w.shades[i].frame.traced then [] else w.shades[i + 1..])
    else if w.outside != [] then
      w.(outside := w.outside[..|w.outside| - 1], orphans := w.orphans + if Top(w).traced then 1 else 0)
    else w
  }

  function Next(w: World, m: Move): World {
    match m
    case Called(f) => w.(shades := w.shades + [Shade(f, false)])
    case Returned(_) => Leaving(w)
    case Jumped(k) =>
      var n := |Alive(w.shades)|;
      w.(shades := Killed(w.shades, k),
         outside := if n < k <= n + |w.outside| then w.outside[..n + |w.outside| - k] else w.outside)
  }

  /** Returns log the function that returns, and what is jumped to stays. */
  predicate Possible(tab: SymTab, w: World, m: Move) {
    match m
    case Called(f) => KindOf(f.entry.address) == Call
    case Returned(e) =>
      && (TopAlive(w.shades) >= 0 || w.outside != [])
      && (Top(w).traced ==> KindOf(e.address) == OwnReturn && NameOf(tab, e) == NameOf(tab, Top(w).entry))
    case Jumped(k) => k < |Alive(w.shades)| + |w.outside|
  }

  function Logs(w: World, m: Move): seq<Entry> {
    match m
    case Called(f) => if f.traced then [f.entry] else []
    case Returned(e) => if (TopAlive(w.shades) >= 0 || w.outside != []) && Top(w).traced then [e] else []
    case Jumped(_) => []
  }

  /** The call that a return completes, and with it, at the same cycle, those of dead frames above it. */
  function Ends(tab: SymTab, earliest: u64, w: World, m: Move): seq<Span> {
    if !m.Returned? || Logs(w, m) == [] then []
    else
      var e, i := m.logged, TopAlive(w.shades);
      if i >= 0 then Ended(tab, Frames(w.shades[i..]), e.cycle, 0)
      else [Span(SymOf(tab, e), earliest, e.cycle, -(w.orphans + 1))]
  }

  /** No dead frame above the one that returns has its name; none is left when a frame from before the window
  returns. */
  predicate Recovers(tab: SymTab, w: World, m: Move) {
    m.Returned? && Logs(w, m) != [] ==>
      var i := TopAlive(w.shades);
      if i >= 0 then NoneNamed(tab, Known(w.shades[i + 1..]), NameOf(tab, m.logged)) else Known(w.shades) == []
  }

  predicate NoneNamed(tab: SymTab, entries: seq<Entry>, name: string) {
    forall j :: 0 <= j < |entries| ==> NameOf(tab, entries[j]) != name
  }

  // The frames that are alive are those of an ordinary stack.

  function Stack(w: World): seq<Frame> { w.outside + Alive(w.shades) }

  lemma {:induction false} KilledDrops(shades: seq<Shade>, k: nat)
    requires k <= |Alive(shades)|
    ensures Alive(Killed(shades, k)) == Alive(shades)[..|Alive(shades)| - k]
    decreases |shades|
  {
    hide Frames;
    if k > 0 && shades != [] {
      var s, front := shades[|shades| - 1], shades[..|shades| - 1];
      KilledDrops(front, if s.dead then k else k - 1);
    }
  }

  lemma {:induction false} AllKilled(shades: seq<Shade>, k: nat)
    requires k > |Alive(shades)|
    ensures Alive(Killed(shades, k)) == []
    decreases |shades|
  {
    hide Frames;
    if shades != [] {
      var s, front := shades[|shades| - 1], shades[..|shades| - 1];
      AllKilled(front, if s.dead then k else k - 1);
    }
  }

  lemma {:induction false} AliveConcat(a: seq<Shade>, b: seq<Shade>)
    ensures Alive(a + b) == Alive(a) + Alive(b)
    decreases |b|
  {
    if b == [] {
      assert a + b == a;
    } else {
      assert (a + b)[..|a + b| - 1] == a + b[..|b| - 1];
      AliveConcat(a, b[..|b| - 1]);
    }
  }

  lemma {:induction false} NoneAlive(shades: seq<Shade>)
    requires forall i :: 0 <= i < |shades| ==> shades[i].dead
    ensures Alive(shades) == []
    decreases |shades|
  {
    if shades != [] {
      NoneAlive(shades[..|shades| - 1]);
    }
  }

  lemma AliveAround(shades: seq<Shade>)
    ensures var i := TopAlive(shades);
            if i < 0 then Alive(shades) == []
            else && Alive(shades) == Alive(shades[..i]) + [shades[i].frame]
                 && Alive(shades[..i] + shades[i + 1..]) == Alive(shades[..i])
  {
    hide Alive;
    var i := TopAlive(shades);
    if i < 0 {
      NoneAlive(shades);
    } else {
      NoneAlive(shades[i + 1..]);
      AliveConcat(shades[..i], shades[i + 1..]);
      assert shades == shades[..i + 1] + shades[i + 1..];
      AliveConcat(shades[..i + 1], shades[i + 1..]);
      AliveLast(shades[..i + 1]);
      assert shades[..i + 1][..i] == shades[..i];
    }
  }

  lemma AliveLast(shades: seq<Shade>)
    requires shades != [] && !shades[|shades| - 1].dead
    ensures Alive(shades) == Alive(shades[..|shades| - 1]) + [shades[|shades| - 1].frame]
  {
  }

  /** A call pushes a frame, a return pops one, and a jump drops as many as it says. */
  lemma StackMoves(tab: SymTab, w: World, m: Move)
    requires Possible(tab, w, m)
    ensures Stack(w) != [] || m.Called?
    ensures Stack(Next(w, m))
         == match m
            case Called(f) => Stack(w) + [f]
            case Returned(_) => Stack(w)[..|Stack(w)| - 1]
            case Jumped(k) => Stack(w)[..|Stack(w)| - k]
    ensures m.Returned? ==> Top(w) == Stack(w)[|Stack(w)| - 1]
  {
    hide Alive, Killed;
    AliveAround(w.shades);
    match m
    case Called(f) =>
      var more := w.shades + [Shade(f, false)];
      AliveLast(more);
      assert more[..|more| - 1] == w.shades;
    case Returned(_) =>
      var i := TopAlive(w.shades);
      if i >= 0 {
        assert w.shades[..i] + [] == w.shades[..i];
      }
    case Jumped(k) =>
      if k <= |Alive(w.shades)| {
        KilledDrops(w.shades, k);
      } else {
        AllKilled(w.shades, k);
      }
  }

  // One return.

  lemma KnownSplits(shades: seq<Shade>, i: nat)
    requires i <= |shades|
    ensures Known(shades) == Known(shades[..i]) + Known(shades[i..])
  {
    assert Frames(shades) == Frames(shades[..i]) + Frames(shades[i..]);
    LiveConcat(Frames(shades[..i]), Frames(shades[i..]));
  }

  lemma KnownOne(s: Shade)
    ensures Known([s]) == if s.frame.traced then [s.frame.entry] else []
  {
    assert Frames([s]) == [s.frame] && [s.frame][..0] == [];
    assert Live([s.frame][..0]) == [];
  }

  lemma KnownAround(shades: seq<Shade>, i: nat)
    requires i < |shades|
    ensures Known(shades)
         == Known(shades[..i])
            + (if shades[i].frame.traced then [shades[i].frame.entry] else [])
            + Known(shades[i + 1..])
  {
    hide Known;
    KnownSplits(shades, i);
    KnownSplits(shades[i..], 1);
    KnownOne(shades[i]);
    assert shades[i..][..1] == [shades[i]] && shades[i..][1..] == shades[i + 1..];
  }

  /** The pop loop stops at the frame that returns exactly if no dead frame above it has its name. */
  lemma LowExact(tab: SymTab, below: seq<Entry>, f: Entry, above: seq<Entry>, e: Entry)
    requires NameOf(tab, f) == NameOf(tab, e)
    ensures OwnReturnLow(tab, below + [f] + above, e) == |below| <==> NoneNamed(tab, above, NameOf(tab, e))
    ensures OwnReturnLow(tab, below + [f] + above, e) >= |below|
  {
    var stack := below + [f] + above;
    var i := Topmost(tab, stack, NameOf(tab, e), false);
    assert stack[|below|] == f;
    assert forall j :: 0 <= j < |above| ==> stack[|below| + 1 + j] == above[j];
    if i == |below| {
      forall j | 0 <= j < |above| ensures NameOf(tab, above[j]) != NameOf(tab, e) {
        assert !Stops(tab, stack[|below| + 1 + j], NameOf(tab, e), false);
      }
    } else {
      assert i > |below| && stack[i] == above[i - |below| - 1];
    }
  }

  /** The next own-address return of a frame that is alive leaves the decoder with just what it knows below that
  frame exactly if no dead frame above has its name. */
  lemma ReturnExact(tab: SymTab, w: World, e: Entry, st: State)
    requires Possible(tab, w, Returned(e)) && Logs(w, Returned(e)) != [] && TopAlive(w.shades) >= 0
    requires st.stack == Known(w.shades)
    ensures st.stack != []
    ensures OwnReturnStep(tab, st, e).stack == Known(Leaving(w).shades) <==> Recovers(tab, w, Returned(e))
  {
    hide Known;
    var i := TopAlive(w.shades);
    var below, f, above := Known(w.shades[..i]), w.shades[i].frame.entry, Known(w.shades[i + 1..]);
    KnownAround(w.shades, i);
    assert st.stack == below + [f] + above;
    LowExact(tab, below, f, above, e);
    assert w.shades[..i] + [] == w.shades[..i];
    PrefixLength(below, [f] + above, OwnReturnLow(tab, st.stack, e));
    assert below + ([f] + above) == st.stack;
  }

  lemma SameTail(a: seq<Entry>, b: seq<Entry>, x: seq<Entry>)
    ensures a + x == b + x <==> a == b
  {
    if a + x == b + x {
      assert a == (a + x)[..|a|] && b == (b + x)[..|b|];
    }
  }

  lemma KnownMore(shades: seq<Shade>)
    requires shades != []
    ensures var s, front := shades[|shades| - 1], shades[..|shades| - 1];
            && Known(shades) == Known(front) + (if s.frame.traced then [s.frame.entry] else [])
            && Live(Alive(shades))
               == Live(Alive(front)) + if s.frame.traced && !s.dead then [s.frame.entry] else []
  {
    var s, front := shades[|shades| - 1], shades[..|shades| - 1];
    KnownAround(shades, |shades| - 1);
    assert Known(shades[|shades|..]) == [];
    LiveConcat(Alive(front), [s.frame]);
    assert [s.frame][..0] == [];
    assert Live([s.frame]) == if s.frame.traced then [s.frame.entry] else [];
    assert Alive(front) + [] == Alive(front) && Live(Alive(front)) + [] == Live(Alive(front));
  }

  ghost predicate NoneDead(shades: seq<Shade>) {
    forall i :: 0 <= i < |shades| && shades[i].frame.traced ==> !shades[i].dead
  }

  /** That is the truth exactly if none of what it knows is dead. */
  lemma {:induction false} KnownIsTrue(shades: seq<Shade>)
    ensures |Live(Alive(shades))| <= |Known(shades)|
    ensures Known(shades) == Live(Alive(shades)) <==> NoneDead(shades)
    decreases |shades|
  {
    hide Known, Live, Alive;
    if shades == [] {
      NothingKnown();
    } else {
      var s, front := shades[|shades| - 1], shades[..|shades| - 1];
      KnownIsTrue(front);
      KnownMore(shades);
      SameTail(Known(front), Live(Alive(front)), [s.frame.entry]);
      assert Known(front) + [] == Known(front) && Live(Alive(front)) + [] == Live(Alive(front));
      assert NoneDead(shades) <==> NoneDead(front) && (s.frame.traced ==> !s.dead);
    }
  }

  lemma NothingKnown()
    ensures Known([]) == Live(Alive([])) == []
  {
  }

  /** A frame from before the window returns while only dead ones are known: the decoder gets rid of them exactly
  if the name is on none but the lowest. */
  lemma OutsideReturnExact(tab: SymTab, st: State, e: Entry)
    requires st.stack != []
    ensures OwnReturnStep(tab, st, e).stack == [] <==> NoneNamed(tab, st.stack[1..], NameOf(tab, e))
  {
    var i := Topmost(tab, st.stack, NameOf(tab, e), false);
    if i >= 1 {
      assert st.stack[1..][i - 1] == st.stack[i];
    } else {
      forall j | 0 <= j < |st.stack| - 1 ensures NameOf(tab, st.stack[1..][j]) != NameOf(tab, e) {
        assert !Stops(tab, st.stack[j + 1], NameOf(tab, e), false);
      }
    }
  }

  /** A caller-address return recovers exactly if there is nothing dead and the caller fits, or the caller is
  known right below the frame that returns, and from there on its name is only on top, if at all. */
  lemma CallerReturnAfterJump(tab: SymTab, st: State, below: seq<Entry>, f: Entry, above: seq<Entry>, e: Entry)
    requires st.stack == below + [f] + above
    ensures CallerReturnStep(tab, st, e).stack == below
       <==> if above == [] then CallerFits(tab, below, NameOf(tab, e)) else CallerClear(tab, below, f, above, e)
  {
    hide CallerReturnLow, CallerFits, CallerClear;
    var stack := st.stack;
    assert stack == below + ([f] + above);
    PrefixLength(below, [f] + above, CallerReturnLow(tab, stack, e));
    if above == [] {
      assert stack[..|stack| - 1] == below;
      CallerOnTop(tab, stack, e);
    } else {
      CallerClearLow(tab, stack, below, f, above, e);
    }
  }

  predicate CallerClear(tab: SymTab, below: seq<Entry>, f: Entry, above: seq<Entry>, e: Entry)
    requires above != []
  {
    && below != [] && NameOf(tab, below[|below| - 1]) == NameOf(tab, e)
    && NoneNamed(tab, [f] + above[..|above| - 1], NameOf(tab, e))
  }

  lemma CallerClearLow(tab: SymTab, stack: seq<Entry>, below: seq<Entry>, f: Entry, above: seq<Entry>, e: Entry)
    requires stack == below + [f] + above && above != []
    ensures CallerReturnLow(tab, stack, e) == |below| <==> CallerClear(tab, below, f, above, e)
  {
    hide Topmost, NoneNamed;
    var over := [f] + above[..|above| - 1];
    assert stack[..|stack| - 1] == below + over;
    DepthByName(tab, below, over, NameOf(tab, e));
  }

  lemma DepthByName(tab: SymTab, kept: seq<Entry>, gone: seq<Entry>, name: string)
    requires gone != []
    ensures Topmost(tab, kept + gone, name, false) + 1 == |kept| && kept != [] <==>
            kept != [] && NameOf(tab, kept[|kept| - 1]) == name && NoneNamed(tab, gone, name)
  {
    var stack := kept + gone;
    var i := Topmost(tab, stack, name, false);
    if i + 1 == |kept| {
      forall j | 0 <= j < |gone| ensures NameOf(tab, gone[j]) != name {
        assert !Stops(tab, stack[|kept| + j], name, false);
      }
    } else if i + 1 > |kept| {
      assert stack[i] == gone[i - |kept|];
    } else if kept != [] {
      assert !Stops(tab, stack[|kept| - 1], name, false);
    }
  }

  // Whole runs.

  function WorldAfter(w: World, moves: seq<Move>): World {
    if moves == [] then w else Next(WorldAfter(w, moves[..|moves| - 1]), moves[|moves| - 1])
  }

  predicate PossibleRun(tab: SymTab, w: World, moves: seq<Move>) {
    moves == []
    || (PossibleRun(tab, w, moves[..|moves| - 1])
        && Possible(tab, WorldAfter(w, moves[..|moves| - 1]), moves[|moves| - 1]))
  }

  predicate RecoversAlways(tab: SymTab, w: World, moves: seq<Move>) {
    moves == []
    || (RecoversAlways(tab, w, moves[..|moves| - 1])
        && Recovers(tab, WorldAfter(w, moves[..|moves| - 1]), moves[|moves| - 1]))
  }

  function LogsOf(w: World, moves: seq<Move>): seq<Entry> {
    if moves == [] then []
    else LogsOf(w, moves[..|moves| - 1]) + Logs(WorldAfter(w, moves[..|moves| - 1]), moves[|moves| - 1])
  }

  function EndsBy(tab: SymTab, earliest: u64, w: World, moves: seq<Move>): seq<Span> {
    if moves == [] then []
    else
      EndsBy(tab, earliest, w, moves[..|moves| - 1])
      + Ends(tab, earliest, WorldAfter(w, moves[..|moves| - 1]), moves[|moves| - 1])
  }

  function Decoded(w: World, out: seq<Span>): State { State(Known(w.shades), UNKNOWN_SYM, w.orphans, out) }

  lemma ReturnSimulated(tab: SymTab, earliest: u64, w: World, e: Entry, out: seq<Span>)
    requires Possible(tab, w, Returned(e)) && Logs(w, Returned(e)) != [] && Recovers(tab, w, Returned(e))
    ensures Step(tab, earliest, Decoded(w, out), e)
         == Decoded(Leaving(w), out + Ends(tab, earliest, w, Returned(e)))
  {
    var i := TopAlive(w.shades);
    if i >= 0 {
      var st := Decoded(w, out);
      var below := Known(w.shades[..i]);
      ReturnExact(tab, w, e, st);
      KnownSplits(w.shades, i);
      KnownAround(w.shades, i);
      var f, above := w.shades[i].frame.entry, Known(w.shades[i + 1..]);
      LowExact(tab, below, f, above, e);
      EndedIsClose(tab, below, Frames(w.shades[i..]), e.cycle, 0);
      assert below + Live(Frames(w.shades[i..])) == st.stack;
      assert st.stack[|below|] == f;
      OwnReturnCloses(tab, st.stack, e);
    }
  }

  lemma UntracedLeaves(w: World)
    requires TopAlive(w.shades) >= 0 && !Top(w).traced
    ensures Known(Leaving(w).shades) == Known(w.shades)
  {
    hide Known;
    var i := TopAlive(w.shades);
    KnownAround(w.shades, i);
    var after := w.shades[..i] + w.shades[i + 1..];
    KnownSplits(after, i);
    assert after[..i] == w.shades[..i] && after[i..] == w.shades[i + 1..];
  }

  lemma CalledKnown(shades: seq<Shade>, f: Frame)
    ensures Known(shades + [Shade(f, false)]) == Known(shades) + if f.traced then [f.entry] else []
  {
    hide Known;
    var s := Shade(f, false);
    KnownSplits(shades + [s], |shades|);
    KnownOne(s);
    assert (shades + [s])[..|shades|] == shades && (shades + [s])[|shades|..] == [s];
  }

  lemma MoveSimulated(tab: SymTab, earliest: u64, w: World, m: Move, out: seq<Span>)
    requires Possible(tab, w, m) && Recovers(tab, w, m)
    ensures Run(tab, earliest, Decoded(w, out), Logs(w, m)) == Decoded(Next(w, m), out + Ends(tab, earliest, w, m))
  {
    hide Known, Leaving, Recovers, Ended, OwnReturnStep;
    assert out + [] == out;
    match m {
      case Called(f) =>
        CalledKnown(w.shades, f);
        if f.traced {
          RunOne(tab, earliest, Decoded(w, out), f.entry);
        }
      case Returned(e) =>
        if Top(w).traced {
          RunOne(tab, earliest, Decoded(w, out), e);
          ReturnSimulated(tab, earliest, w, e, out);
        } else {
          UntracedReturn(w);
        }
      case Jumped(k) =>
        KilledKnown(w.shades, k);
    }
  }

  lemma UntracedReturn(w: World)
    requires (TopAlive(w.shades) >= 0 || w.outside != []) && !Top(w).traced
    ensures Known(Leaving(w).shades) == Known(w.shades) && Leaving(w).orphans == w.orphans
  {
    if TopAlive(w.shades) >= 0 {
      UntracedLeaves(w);
    }
  }

  lemma KilledKnown(shades: seq<Shade>, k: nat)
    ensures Known(Killed(shades, k)) == Known(shades)
  {
  }

  /** However a program jumps: if no return finds its function's name on a dead frame first, the decoder knows all
  frames of the window that are alive, and besides them only dead ones above which nothing has returned yet; every
  frame that returns is decoded with the cycles of its call and its return. */
  lemma {:induction false} JumpsSimulated(tab: SymTab, earliest: u64, stack: seq<Frame>, moves: seq<Move>)
    requires PossibleRun(tab, Opened(stack), moves) && RecoversAlways(tab, Opened(stack), moves)
    ensures Run(tab, earliest, INIT, LogsOf(Opened(stack), moves))
         == Decoded(WorldAfter(Opened(stack), moves), EndsBy(tab, earliest, Opened(stack), moves))
    decreases |moves|
  {
    hide Possible, Recovers, Next, Logs, Ends;
    var w := Opened(stack);
    if moves == [] {
      assert Frames([]) == [];
    } else {
      var n := |moves| - 1;
      var u := WorldAfter(w, moves[..n]);
      JumpsSimulated(tab, earliest, stack, moves[..n]);
      MoveSimulated(tab, earliest, u, moves[n], EndsBy(tab, earliest, w, moves[..n]));
      RunConcat(tab, earliest, INIT, LogsOf(w, moves[..n]), Logs(u, moves[n]));
    }
  }

  // A jump over two frames.

  const SETTER: Sym := Sym("setter", 8)
  const WRAPPER: Sym := Sym("wrapper", 16)
  const JUMPER: Sym := Sym("jumper", 24)
  const AFTER: Sym := Sym("after", 32)
  const NAMES: SymTab := map[8 := SETTER, 16 := WRAPPER, 24 := JUMPER, 32 := AFTER]

  lemma Named(ptr: u64, kind: Kind, cycle: u64)
    requires ptr < BIT_61
    ensures var e := Entry(Word(ptr, kind, false), cycle);
            KindOf(e.address) == kind && SymOf(NAMES, e) == SymAt(NAMES, ptr)
  {
    WordRoundTrip(ptr, kind, false);
  }

  /** The setter calls a wrapper of a jumper, gets back by a jump, calls a function and returns: that function is
  decoded right, and the frames jumped over end with the setter. */
  lemma JumpExample()
    ensures Decode(NAMES,
                   [Entry(Word(8, Call, false), 1), Entry(Word(16, Call, false), 2), Entry(Word(24, Call, false), 3),
                    Entry(Word(32, Call, false), 4), Entry(Word(32, OwnReturn, false), 5),
                    Entry(Word(8, OwnReturn, false), 6)], 1, 6)
         == [Span(AFTER, 4, 5, 0), Span(JUMPER, 3, 6, 0), Span(WRAPPER, 2, 6, 1), Span(SETTER, 1, 6, 2)]
    ensures var moves := JumpBack(Entry(Word(8, Call, false), 1), Entry(Word(16, Call, false), 2),
                                  Entry(Word(24, Call, false), 3), Entry(Word(32, Call, false), 4),
                                  Entry(Word(32, OwnReturn, false), 5), Entry(Word(8, OwnReturn, false), 6));
            && PossibleRun(NAMES, Opened([]), moves) && RecoversAlways(NAMES, Opened([]), moves)
            && LogsOf(Opened([]), moves)
               == [Entry(Word(8, Call, false), 1), Entry(Word(16, Call, false), 2), Entry(Word(24, Call, false), 3),
                   Entry(Word(32, Call, false), 4), Entry(Word(32, OwnReturn, false), 5),
                   Entry(Word(8, OwnReturn, false), 6)]
  {
    hide Word, KindOf, SymOf, OwnReturnStep, PossibleRun, RecoversAlways, LogsOf, JumpBack;
    var s, w, j := Entry(Word(8, Call, false), 1), Entry(Word(16, Call, false), 2), Entry(Word(24, Call, false), 3);
    var a, ra := Entry(Word(32, Call, false), 4), Entry(Word(32, OwnReturn, false), 5);
    var rs := Entry(Word(8, OwnReturn, false), 6);
    Named(8, Call, 1);
    Named(16, Call, 2);
    Named(24, Call, 3);
    Named(32, Call, 4);
    Named(32, OwnReturn, 5);
    Named(8, OwnReturn, 6);
    JumpBackLogs(s, w, j, a, ra, rs);
    Timeline.RunLast(NAMES, 1, [], s, INIT);
    assert [] + [s] == [s];
    Timeline.RunLast(NAMES, 1, [s], w, INIT.(stack := [s]));
    assert [s] + [w] == [s, w];
    Timeline.RunLast(NAMES, 1, [s, w], j, INIT.(stack := [s, w]));
    assert [s, w] + [j] == [s, w, j];
    Timeline.RunLast(NAMES, 1, [s, w, j], a, INIT.(stack := [s, w, j]));
    assert [s, w, j] + [a] == [s, w, j, a];
    AfterReturns(s, w, j, a, ra);
    Timeline.RunLast(NAMES, 1, [s, w, j, a], ra, INIT.(stack := [s, w, j, a]));
    assert [s, w, j, a] + [ra] == [s, w, j, a, ra];
    var t := State([s, w, j], UNKNOWN_SYM, 0, [Span(AFTER, 4, 5, 0)]);
    SetterReturns(s, w, j, t, rs);
    Timeline.RunLast(NAMES, 1, [s, w, j, a, ra], rs, t);
    assert [s, w, j, a, ra] + [rs] == [s, w, j, a, ra, rs];
  }

  function Live1(e: Entry): Shade { Shade(Frame(e, true), false) }

  function Dead1(e: Entry): Shade { Shade(Frame(e, true), true) }

  /** The moves so far are possible and recover, and have led to these frames and logged these events. */
  ghost predicate LeadsTo(moves: seq<Move>, shades: seq<Shade>, log: seq<Entry>) {
    && PossibleRun(NAMES, Opened([]), moves) && RecoversAlways(NAMES, Opened([]), moves)
    && WorldAfter(Opened([]), moves) == World([], shades, 0) && LogsOf(Opened([]), moves) == log
  }

  lemma NowhereYet(moves: seq<Move>)
    ensures LeadsTo(moves[..0], [], [])
  {
  }

  lemma OneMore(moves: seq<Move>, n: nat, shades: seq<Shade>, log: seq<Entry>, next: seq<Shade>, more: seq<Entry>)
    requires n < |moves| && LeadsTo(moves[..n], shades, log)
    requires var w := World([], shades, 0);
             && Possible(NAMES, w, moves[n]) && Recovers(NAMES, w, moves[n])
             && Next(w, moves[n]) == World([], next, 0) && Logs(w, moves[n]) == more
    ensures LeadsTo(moves[..n + 1], next, log + more)
  {
    assert moves[..n + 1][..n] == moves[..n];
  }

  lemma CallMove(moves: seq<Move>, n: nat, shades: seq<Shade>, log: seq<Entry>, e: Entry)
    requires n < |moves| && LeadsTo(moves[..n], shades, log)
    requires moves[n] == Called(Frame(e, true)) && KindOf(e.address) == Call
    ensures LeadsTo(moves[..n + 1], shades + [Live1(e)], log + [e])
  {
    OneMore(moves, n, shades, log, shades + [Live1(e)], [e]);
  }

  lemma AboveDead(below: seq<Shade>, s: Shade, above: seq<Shade>, j: nat)
    requires (forall k :: 0 <= k < |above| ==> above[k].dead) && |below| < j < |below| + 1 + |above|
    ensures (below + [s] + above)[j].dead
  {
    assert (below + [s] + above)[j] == above[j - |below| - 1];
  }

  lemma OnlyTop(shades: seq<Shade>, i: nat)
    requires i < |shades| && !shades[i].dead && forall j :: i < j < |shades| ==> shades[j].dead
    ensures TopAlive(shades) == i
  {
  }

  lemma TopAliveIs(below: seq<Shade>, s: Shade, above: seq<Shade>)
    requires !s.dead && forall j :: 0 <= j < |above| ==> above[j].dead
    ensures TopAlive(below + [s] + above) == |below|
  {
    hide TopAlive;
    var shades := below + [s] + above;
    forall j | |below| < j < |shades| ensures shades[j].dead {
      AboveDead(below, s, above, j);
    }
    OnlyTop(shades, |below|);
  }

  lemma ReturnMove(moves: seq<Move>, n: nat, below: seq<Shade>, e: Entry, above: seq<Shade>, log: seq<Entry>, r: Entry)
    requires n < |moves| && LeadsTo(moves[..n], below + [Live1(e)] + above, log)
    requires moves[n] == Returned(r) && KindOf(r.address) == OwnReturn && NameOf(NAMES, r) == NameOf(NAMES, e)
    requires (forall j :: 0 <= j < |above| ==> above[j].dead) && NoneNamed(NAMES, Known(above), NameOf(NAMES, r))
    ensures LeadsTo(moves[..n + 1], below, log + [r])
  {
    hide KindOf;
    var shades := below + [Live1(e)] + above;
    TopAliveIs(below, Live1(e), above);
    assert shades[|below|] == Live1(e) && shades[|below| + 1..] == above;
    assert shades[..|below|] + [] == below;
    OneMore(moves, n, shades, log, below, [r]);
  }

  /** The setter calls a wrapper of a jumper, which jumps back over both. */
  function JumpBack(s: Entry, w: Entry, j: Entry, a: Entry, ra: Entry, rs: Entry): seq<Move> {
    [Called(Frame(s, true)), Called(Frame(w, true)), Called(Frame(j, true)), Jumped(2),
     Called(Frame(a, true)), Returned(ra), Returned(rs)]
  }

  lemma JumpMove(moves: seq<Move>, s: Entry, w: Entry, j: Entry, log: seq<Entry>)
    requires 3 < |moves| && moves[3] == Jumped(2) && LeadsTo(moves[..3], [Live1(s), Live1(w), Live1(j)], log)
    ensures LeadsTo(moves[..4], [Live1(s), Dead1(w), Dead1(j)], log)
  {
    var shades := [Live1(s), Live1(w), Live1(j)];
    assert shades[..2] == [Live1(s), Live1(w)] && shades[..2][..1] == [Live1(s)] && shades[..2][..1][..0] == [];
    assert Alive(shades[..2][..1]) == [Frame(s, true)];
    assert Alive(shades[..2]) == [Frame(s, true), Frame(w, true)];
    assert |Alive(shades)| == 3;
    assert Killed(shades[..2][..1], 0) == [Live1(s)];
    assert Killed(shades[..2], 1) == [Live1(s)] + [Dead1(w)];
    assert Killed(shades, 2) == [Live1(s), Dead1(w), Dead1(j)];
    OneMore(moves, 3, shades, log, [Live1(s), Dead1(w), Dead1(j)], []);
    assert log + [] == log;
  }

  ghost predicate Example(s: Entry, w: Entry, j: Entry, a: Entry, ra: Entry, rs: Entry) {
    && KindOf(s.address) == KindOf(w.address) == KindOf(j.address) == KindOf(a.address) == Call
    && KindOf(ra.address) == KindOf(rs.address) == OwnReturn
    && NameOf(NAMES, ra) == NameOf(NAMES, a) && NameOf(NAMES, rs) == NameOf(NAMES, s)
    && NameOf(NAMES, w) != NameOf(NAMES, s) && NameOf(NAMES, j) != NameOf(NAMES, s)
  }

  lemma JumpedTo(s: Entry, w: Entry, j: Entry, a: Entry, ra: Entry, rs: Entry)
    requires Example(s, w, j, a, ra, rs)
    ensures LeadsTo(JumpBack(s, w, j, a, ra, rs)[..4], [Live1(s), Dead1(w), Dead1(j)], [s, w, j])
  {
    hide KindOf, NameOf, LeadsTo, Live1, Dead1;
    var moves := JumpBack(s, w, j, a, ra, rs);
    NowhereYet(moves);
    CallMove(moves, 0, [], [], s);
    assert [] + [Live1(s)] == [Live1(s)] && [] + [s] == [s];
    CallMove(moves, 1, [Live1(s)], [s], w);
    assert [Live1(s)] + [Live1(w)] == [Live1(s), Live1(w)] && [s] + [w] == [s, w];
    CallMove(moves, 2, [Live1(s), Live1(w)], [s, w], j);
    assert [Live1(s), Live1(w)] + [Live1(j)] == [Live1(s), Live1(w), Live1(j)] && [s, w] + [j] == [s, w, j];
    JumpMove(moves, s, w, j, [s, w, j]);
  }

  lemma JumpedBack(s: Entry, w: Entry, j: Entry, a: Entry, ra: Entry, rs: Entry)
    requires Example(s, w, j, a, ra, rs)
    ensures LeadsTo(JumpBack(s, w, j, a, ra, rs)[..7], [], [s, w, j, a, ra, rs])
  {
    hide KindOf, NameOf, LeadsTo, Live1, Known;
    var moves := JumpBack(s, w, j, a, ra, rs);
    var over := [Live1(s), Dead1(w), Dead1(j)];
    JumpedTo(s, w, j, a, ra, rs);
    CallMove(moves, 4, over, [s, w, j], a);
    assert [s, w, j] + [a] == [s, w, j, a];
    assert over + [Live1(a)] + [] == over + [Live1(a)];
    NothingKnown();
    ReturnMove(moves, 5, over, a, [], [s, w, j, a], ra);
    assert [s, w, j, a] + [ra] == [s, w, j, a, ra];
    assert [] + [Live1(s)] + [Dead1(w), Dead1(j)] == over;
    TwoKnown(w, j);
    ReturnMove(moves, 6, [], s, [Dead1(w), Dead1(j)], [s, w, j, a, ra], rs);
    assert [s, w, j, a, ra] + [rs] == [s, w, j, a, ra, rs];
  }

  /** These are the events of the example. */
  lemma JumpBackLogs(s: Entry, w: Entry, j: Entry, a: Entry, ra: Entry, rs: Entry)
    requires Example(s, w, j, a, ra, rs)
    ensures var moves := JumpBack(s, w, j, a, ra, rs);
            && PossibleRun(NAMES, Opened([]), moves) && RecoversAlways(NAMES, Opened([]), moves)
            && LogsOf(Opened([]), moves) == [s, w, j, a, ra, rs]
  {
    hide PossibleRun, RecoversAlways, LogsOf, WorldAfter;
    var moves := JumpBack(s, w, j, a, ra, rs);
    JumpedBack(s, w, j, a, ra, rs);
    assert moves[..7] == moves;
  }

  lemma TwoKnown(w: Entry, j: Entry)
    ensures Known([Dead1(w), Dead1(j)]) == [w, j]
  {
    KnownOne(Dead1(w));
    KnownOne(Dead1(j));
    KnownSplits([Dead1(w), Dead1(j)], 1);
    assert [Dead1(w), Dead1(j)][..1] == [Dead1(w)] && [Dead1(w), Dead1(j)][1..] == [Dead1(j)];
  }

  lemma AfterReturns(s: Entry, w: Entry, j: Entry, a: Entry, ra: Entry)
    requires SymOf(NAMES, a) == SymOf(NAMES, ra) == AFTER && a.cycle == 4 && ra.cycle == 5
    ensures OwnReturnStep(NAMES, INIT.(stack := [s, w, j, a]), ra)
         == State([s, w, j], UNKNOWN_SYM, 0, [Span(AFTER, 4, 5, 0)])
  {
    OwnReturnMatched(NAMES, INIT.(stack := [s, w, j, a]), [s, w, j], a, ra);
  }

  lemma SetterReturns(s: Entry, w: Entry, j: Entry, t: State, rs: Entry)
    requires SymOf(NAMES, s) == SymOf(NAMES, rs) == SETTER && s.cycle == 1 && rs.cycle == 6
    requires SymOf(NAMES, w) == WRAPPER && w.cycle == 2 && SymOf(NAMES, j) == JUMPER && j.cycle == 3
    requires t.stack == [s, w, j]
    ensures OwnReturnStep(NAMES, t, rs)
         == t.(stack := [], out := t.out + [Span(JUMPER, 3, 6, 0), Span(WRAPPER, 2, 6, 1), Span(SETTER, 1, 6, 2)])
  {
    hide OwnReturnLow, OwnReturnSpans, Topmost, SymOf;
    LowExact(NAMES, [], s, [w, j], rs);
    assert [] + [s] + [w, j] == [s, w, j];
    OwnReturnCloses(NAMES, [s, w, j], rs);
    OnStack(s, w, j, rs);
    assert [s, w, j][..0] == [];
    assert Close(NAMES, [s, w, j], 0, 6, 0)
        == [Span(JUMPER, 3, 6, 0), Span(WRAPPER, 2, 6, 1), Span(SETTER, 1, 6, 2)];
  }

  lemma OnStack(s: Entry, w: Entry, j: Entry, rs: Entry)
    requires SymOf(NAMES, s) == SymOf(NAMES, rs)
    ensures Topmost(NAMES, [s, w, j], NameOf(NAMES, rs), false) >= 0
  {
    hide SymOf;
    assert Stops(NAMES, [s, w, j][0], NameOf(NAMES, rs), false);
  }
}
