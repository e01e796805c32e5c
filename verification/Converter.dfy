/** The imperative decoder of `write_sample_to_json`: a stack vector and the converter's own fields,
updated event by event, proved to compute `Decoder.Decode` of the events it keeps. */
module Converter {
  import opened Events
  import opened Decoder
  import opened Search
  import opened TraceFile

  const THUNK := "virtual override thunk"

  predicate Contains(s: string, sub: string) {
    |sub| <= |s| && (s[..|sub|] == sub || (s != [] && Contains(s[1..], sub)))
  }

  predicate IsThunk(sym: Sym) { Contains(sym.func, THUNK) }

  lemma {:induction false} ContainsThere(s: string, sub: string) returns (before: string, after: string)
    requires Contains(s, sub)
    ensures s == before + sub + after
    decreases |s|
  {
    if s[..|sub|] == sub {
      before, after := "", s[|sub|..];
    } else {
      before, after := ContainsThere(s[1..], sub);
      before := [s[0]] + before;
    }
  }

  lemma {:induction false} ContainsIt(before: string, sub: string, after: string)
    ensures Contains(before + sub + after, sub)
    decreases |before|
  {
    var s := before + sub + after;
    if before == "" {
      assert s[..|sub|] == sub;
    } else {
      assert s[1..] == before[1..] + sub + after;
      ContainsIt(before[1..], sub, after);
    }
  }

  /** A thunk is a function with those words anywhere in its name. */
  lemma ThunkExactly(sym: Sym)
    ensures IsThunk(sym) <==> exists before, after :: sym.func == before + "virtual override thunk" + after
  {
    hide Contains;
    if IsThunk(sym) {
      var before, after := ContainsThere(sym.func, THUNK);
    }
    if exists before, after :: sym.func == before + "virtual override thunk" + after {
      var before, after :| sym.func == before + "virtual override thunk" + after;
      ContainsIt(before, THUNK, after);
    }
  }

  /** The event survives the age limit and is not a thunk first met in this sample; `stale` holds the
  addresses the symbol cache knew before the sample began. */
  predicate Keeps(tab: SymTab, e: Entry, oldest: u64, stale: set<u64>) {
    e.cycle >= oldest && !(IsThunk(SymOf(tab, e)) && CodeAddress(e.address) !in stale)
  }

  function Kept(tab: SymTab, entries: seq<Entry>, oldest: u64, stale: set<u64>): seq<Entry> {
    if entries == [] then []
    else
      var m := |entries| - 1;
      Kept(tab, entries[..m], oldest, stale) + if Keeps(tab, entries[m], oldest, stale) then [entries[m]] else []
  }

  /** Only calls with both timestamps known are written out. */
  function Written(spans: seq<Span>): seq<Span> {
    if spans == [] then []
    else
      var s := spans[|spans| - 1];
      Written(spans[..|spans| - 1]) + if s.end != 0 && s.start != 0 then [s] else []
  }

  /** What a dry run leaves out. */
  function JsonOf(dry: bool, spans: seq<Span>): seq<Span> { if dry then [] else Written(spans) }

  function Max(a: u64, b: u64): u64 { if a >= b then a else b }

  function Min(a: u64, b: u64): u64 { if a <= b then a else b }

  /** The calls decoded from one thread's entries. */
  function ThreadSpans(tab: SymTab, entries: seq<Entry>, oldest: u64, stale: set<u64>): seq<Span>
    requires entries != []
  {
    Decode(tab, Kept(tab, entries, oldest, stale), Max(entries[0].cycle, oldest), entries[|entries| - 1].cycle)
  }

  predicate Selected(threads: seq<u64>, t: ReadThread) { threads == [] || t.id.tid in threads }

  /** The calls decoded from a sample, thread after thread. */
  function SampleSpans(tab: SymTab, sample: seq<ReadThread>, threads: seq<u64>, oldest: u64, stale: set<u64>): seq<Span>
    requires forall i :: 0 <= i < |sample| ==> sample[i].trace != []
  {
    if sample == [] then []
    else
      var m := |sample| - 1;
      SampleSpans(tab, sample[..m], threads, oldest, stale)
      + if Selected(threads, sample[m]) then ThreadSpans(tab, sample[m].trace, oldest, stale) else []
  }

  /** The addresses whose symbols decoding looks up. */
  function LookedUp(entries: seq<Entry>, oldest: u64): set<u64> {
    if entries == [] then {}
    else
      var e := entries[|entries| - 1];
      LookedUp(entries[..|entries| - 1], oldest) + if e.cycle >= oldest then {CodeAddress(e.address)} else {}
  }

  function SampleLookedUp(sample: seq<ReadThread>, threads: seq<u64>, oldest: u64): set<u64> {
    if sample == [] then {}
    else
      var t := sample[|sample| - 1];
      SampleLookedUp(sample[..|sample| - 1], threads, oldest)
      + if Selected(threads, t) then LookedUp(t.trace, oldest) else {}
  }

  /** The earliest first event of the selected threads and the ftrace events. */
  function EarliestFirst(sample: seq<ReadThread>, threads: seq<u64>): u64
    requires forall i :: 0 <= i < |sample| ==> sample[i].trace != []
  {
    if sample == [] then TWO_64 - 1
    else
      var m := |sample| - 1;
      var rest := EarliestFirst(sample[..m], threads);
      if Selected(threads, sample[m]) then Min(sample[m].trace[0].cycle, rest) else rest
  }

  function LatestLast(sample: seq<ReadThread>, threads: seq<u64>): u64
    requires forall i :: 0 <= i < |sample| ==> sample[i].trace != []
  {
    if sample == [] then 0
    else
      var m := |sample| - 1;
      var rest := LatestLast(sample[..m], threads);
      if Selected(threads, sample[m]) then Max(sample[m].trace[|sample[m].trace| - 1].cycle, rest) else rest
  }

  /** Where the timeline starts: unsigned arithmetic wraps around in an unchecked build. */
  function OldestEventOf(sample: seq<ReadThread>, threads: seq<u64>, ftrace: seq<u64>,
                         maxAge: Option<u64>, oldestTime: Option<u64>): u64
    requires forall i :: 0 <= i < |sample| ==> sample[i].trace != []
  {
    var first, last := EarliestFirst(sample, threads), LatestLast(sample, threads);
    var oldest := if ftrace == [] then first else Min(ftrace[0], first);
    var youngest := if ftrace == [] then last else Max(ftrace[|ftrace| - 1], last);
    if maxAge.Some? then (youngest - maxAge.value) % TWO_64
    else if oldestTime.Some? then oldestTime.value
    else oldest
  }

  /** The limit taken from the samples is no later than any selected thread's first event. */
  lemma {:induction false} EarliestFirstIsFirst(sample: seq<ReadThread>, threads: seq<u64>, i: nat)
    requires NoneEmpty(sample) && i < |sample| && Selected(threads, sample[i])
    ensures EarliestFirst(sample, threads) <= sample[i].trace[0].cycle
    decreases |sample|
  {
    if i < |sample| - 1 {
      EarliestFirstIsFirst(sample[..|sample| - 1], threads, i);
    }
  }

  /** With no age limits no event of a selected thread is too old, whatever its place in the thread. */
  lemma NoneTooOld(sample: seq<ReadThread>, threads: seq<u64>, ftrace: seq<u64>, i: nat, j: nat)
    requires NoneEmpty(sample) && TracesSorted(sample)
    requires i < |sample| && Selected(threads, sample[i]) && j < |sample[i].trace|
    ensures OldestEventOf(sample, threads, ftrace, None, None) <= sample[i].trace[j].cycle
  {
    EarliestFirstIsFirst(sample, threads, i);
    assert Sorted(sample[i].trace);
  }

  /** Event `j` of thread `i`, which is decoded. */
  predicate EventAt(sample: seq<ReadThread>, threads: seq<u64>, i: int, j: int, cycle: int) {
    && 0 <= i < |sample| && (threads == [] || sample[i].id.tid in threads)
    && 0 <= j < |sample[i].trace| && sample[i].trace[j].cycle == cycle
  }

  ghost predicate SomeEvent(sample: seq<ReadThread>, threads: seq<u64>, cycle: int) {
    exists i, j :: EventAt(sample, threads, i, j, cycle)
  }

  lemma SomeEventMore(sample: seq<ReadThread>, threads: seq<u64>, cycle: int)
    requires sample != [] && SomeEvent(sample[..|sample| - 1], threads, cycle)
    ensures SomeEvent(sample, threads, cycle)
  {
    var i, j :| EventAt(sample[..|sample| - 1], threads, i, j, cycle);
    assert EventAt(sample, threads, i, j, cycle);
  }

  /** The greatest cycle of a decoded event, 0 if there is none. */
  lemma {:induction false} LatestExactly(sample: seq<ReadThread>, threads: seq<u64>)
    requires NoneEmpty(sample) && TracesSorted(sample)
    ensures forall i, j, cycle :: EventAt(sample, threads, i, j, cycle) ==> cycle <= LatestLast(sample, threads)
    ensures LatestLast(sample, threads) != 0 ==> SomeEvent(sample, threads, LatestLast(sample, threads))
    decreases |sample|
  {
    hide SomeEvent;
    if sample != [] {
      var m := |sample| - 1;
      var front, last := sample[..m], sample[m].trace;
      LatestExactly(front, threads);
      assert Sorted(last);
      forall i, j, cycle | EventAt(sample, threads, i, j, cycle) ensures cycle <= LatestLast(sample, threads) {
        assert i < m ==> EventAt(front, threads, i, j, cycle);
      }
      if Selected(threads, sample[m]) {
        EventThere(sample, threads, m, |last| - 1, last[|last| - 1].cycle);
      }
      if SomeEvent(front, threads, LatestLast(front, threads)) {
        SomeEventMore(sample, threads, LatestLast(front, threads));
      }
    }
  }

  lemma EventThere(sample: seq<ReadThread>, threads: seq<u64>, i: nat, j: nat, cycle: int)
    requires EventAt(sample, threads, i, j, cycle)
    ensures SomeEvent(sample, threads, cycle)
  {
  }

  /** The least cycle of a decoded event, the greatest number if there is none. */
  lemma {:induction false} EarliestExactly(sample: seq<ReadThread>, threads: seq<u64>)
    requires NoneEmpty(sample) && TracesSorted(sample)
    ensures forall i, j, cycle :: EventAt(sample, threads, i, j, cycle) ==> EarliestFirst(sample, threads) <= cycle
    ensures EarliestFirst(sample, threads) != TWO_64 - 1 ==> SomeEvent(sample, threads, EarliestFirst(sample, threads))
    decreases |sample|
  {
    hide SomeEvent;
    if sample != [] {
      var m := |sample| - 1;
      var front, last := sample[..m], sample[m].trace;
      EarliestExactly(front, threads);
      assert Sorted(last);
      forall i, j, cycle | EventAt(sample, threads, i, j, cycle) ensures EarliestFirst(sample, threads) <= cycle {
        assert i < m ==> EventAt(front, threads, i, j, cycle);
      }
      if Selected(threads, sample[m]) {
        EventThere(sample, threads, m, 0, last[0].cycle);
      }
      if SomeEvent(front, threads, EarliestFirst(front, threads)) {
        SomeEventMore(sample, threads, EarliestFirst(front, threads));
      }
    }
  }

  lemma AgeWraps(latest: u64, maxAge: u64)
    ensures (latest - maxAge) % TWO_64 == if maxAge <= latest then latest - maxAge else latest + TWO_64 - maxAge
  {
  }

  lemma LatestIs(sample: seq<ReadThread>, threads: seq<u64>, ftrace: seq<u64>, latest: u64)
    requires NoneEmpty(sample) && TracesSorted(sample)
    requires forall i, j, cycle :: EventAt(sample, threads, i, j, cycle) ==> cycle <= latest
    requires ftrace != [] ==> ftrace[|ftrace| - 1] <= latest
    requires SomeEvent(sample, threads, latest) || (ftrace != [] && ftrace[|ftrace| - 1] == latest)
    ensures latest == if ftrace == [] then LatestLast(sample, threads)
                      else Max(ftrace[|ftrace| - 1], LatestLast(sample, threads))
  {
    LatestExactly(sample, threads);
    if SomeEvent(sample, threads, latest) {
      var i, j :| EventAt(sample, threads, i, j, latest);
    }
    if SomeEvent(sample, threads, LatestLast(sample, threads)) {
      var i, j :| EventAt(sample, threads, i, j, LatestLast(sample, threads));
    }
  }

  /** With a maximum age the limit is that age before the latest there is, of decoded events and the last ftrace
  line. */
  lemma AgeBeforeLatest(sample: seq<ReadThread>, threads: seq<u64>, ftrace: seq<u64>, maxAge: u64,
                        oldestTime: Option<u64>, latest: u64)
    requires NoneEmpty(sample) && TracesSorted(sample)
    requires forall i, j, cycle :: EventAt(sample, threads, i, j, cycle) ==> cycle <= latest
    requires ftrace != [] ==> ftrace[|ftrace| - 1] <= latest
    requires SomeEvent(sample, threads, latest) || (ftrace != [] && ftrace[|ftrace| - 1] == latest)
    ensures OldestEventOf(sample, threads, ftrace, Some(maxAge), oldestTime)
         == if maxAge <= latest then latest - maxAge else latest + TWO_64 - maxAge
  {
    hide LatestLast, EarliestFirst, EventAt;
    LatestIs(sample, threads, ftrace, latest);
    AgeWraps(latest, maxAge);
  }

  /** With an oldest time and no maximum age the limit is that time. With neither it is the earliest there is, of
  decoded events and the first ftrace line. */
  lemma LimitWithoutAge(sample: seq<ReadThread>, threads: seq<u64>, ftrace: seq<u64>, earliest: u64)
    requires NoneEmpty(sample) && TracesSorted(sample)
    requires forall i, j, cycle :: EventAt(sample, threads, i, j, cycle) ==> earliest <= cycle
    requires ftrace != [] ==> earliest <= ftrace[0]
    requires SomeEvent(sample, threads, earliest) || (ftrace != [] && ftrace[0] == earliest)
    ensures OldestEventOf(sample, threads, ftrace, None, None) == earliest
    ensures forall time :: OldestEventOf(sample, threads, ftrace, None, Some(time)) == time
  {
    EarliestExactly(sample, threads);
    if SomeEvent(sample, threads, earliest) {
      var i, j :| EventAt(sample, threads, i, j, earliest);
    }
    if SomeEvent(sample, threads, EarliestFirst(sample, threads)) {
      var i, j :| EventAt(sample, threads, i, j, EarliestFirst(sample, threads));
    }
  }

  /** A thread that is not on a list of threads adds nothing, any other its own calls; no list is for all. */
  lemma {:induction false} ThreadsChosen(tab: SymTab, before: seq<ReadThread>, t: ReadThread, after: seq<ReadThread>,
                                         threads: seq<u64>, oldest: u64, stale: set<u64>)
    requires NoneEmpty(before) && t.trace != [] && NoneEmpty(after)
    ensures SampleSpans(tab, before + [t] + after, threads, oldest, stale)
         == SampleSpans(tab, before, threads, oldest, stale)
            + (if threads == [] || t.id.tid in threads then ThreadSpans(tab, t.trace, oldest, stale) else [])
            + SampleSpans(tab, after, threads, oldest, stale)
    decreases |after|
  {
    hide ThreadSpans;
    var whole := before + [t] + after;
    if after == [] {
      assert whole == before + [t] && whole[..|whole| - 1] == before;
    } else {
      var m := |after| - 1;
      assert whole[..|whole| - 1] == before + [t] + after[..m] && whole[|whole| - 1] == after[m];
      ThreadsChosen(tab, before, t, after[..m], threads, oldest, stale);
    }
  }

  /** No thunk survives exactly when none was in the symbol cache before the sample began: the cache
  outlives the sample, the set of addresses to ignore does not. */
  lemma {:induction false} ThunksSkippedExactly(tab: SymTab, entries: seq<Entry>, oldest: u64, stale: set<u64>)
    ensures (forall e :: e in Kept(tab, entries, oldest, stale) ==> !IsThunk(SymOf(tab, e)))
       <==> (forall e :: e in entries && e.cycle >= oldest && IsThunk(SymOf(tab, e)) ==>
               CodeAddress(e.address) !in stale)
    decreases |entries|
  {
    if entries != [] {
      var m := |entries| - 1;
      ThunksSkippedExactly(tab, entries[..m], oldest, stale);
      assert forall e :: e in entries <==> e in entries[..m] || e == entries[m];
    }
  }

  /** Nothing is dropped from entries that are recent enough and no thunks. */
  lemma {:induction false} AllKept(tab: SymTab, entries: seq<Entry>, oldest: u64, stale: set<u64>)
    requires forall i :: 0 <= i < |entries| ==> entries[i].cycle >= oldest && !IsThunk(SymOf(tab, entries[i]))
    ensures Kept(tab, entries, oldest, stale) == entries
    decreases |entries|
  {
    if entries != [] {
      AllKept(tab, entries[..|entries| - 1], oldest, stale);
    }
  }

  lemma WrittenMore(spans: seq<Span>, s: Span)
    ensures Written(spans + [s]) == Written(spans) + if s.end != 0 && s.start != 0 then [s] else []
  {
    assert (spans + [s])[..|spans|] == spans;
  }

  lemma {:induction false} WrittenConcat(a: seq<Span>, b: seq<Span>)
    ensures Written(a + b) == Written(a) + Written(b)
    decreases |b|
  {
    if b == [] {
      assert a + b == a;
    } else {
      var m := |b| - 1;
      WrittenConcat(a, b[..m]);
      assert (a + b)[..|a + b| - 1] == a + b[..m];
    }
  }

  /** A dry run writes nothing; else what is left out are the calls with a time of zero, and nothing else. */
  lemma {:induction false} WrittenExactly(dry: bool, spans: seq<Span>)
    ensures dry ==> JsonOf(dry, spans) == []
    ensures !dry ==> forall s :: s in JsonOf(dry, spans) <==> s in spans && s.start != 0 && s.end != 0
    ensures !dry && (forall s :: s in spans ==> s.start != 0 && s.end != 0) ==> JsonOf(dry, spans) == spans
    decreases |spans|
  {
    if spans != [] {
      var front, last := spans[..|spans| - 1], spans[|spans| - 1];
      WrittenExactly(dry, front);
      assert spans == front + [last];
    }
  }

  lemma KeptPrefix(tab: SymTab, entries: seq<Entry>, oldest: u64, stale: set<u64>, i: nat)
    requires i < |entries|
    ensures Kept(tab, entries[..i + 1], oldest, stale)
         == if Keeps(tab, entries[i], oldest, stale) then Kept(tab, entries[..i], oldest, stale) + [entries[i]]
            else Kept(tab, entries[..i], oldest, stale)
  {
    assert entries[..i + 1][..i] == entries[..i];
  }

  lemma NothingKept(tab: SymTab, earliest: u64, entries: seq<Entry>, oldest: u64, stale: set<u64>)
    ensures Run(tab, earliest, INIT, Kept(tab, entries[..0], oldest, stale)) == INIT
  {
  }

  /** Cached symbols are those a fresh lookup would give. */
  ghost predicate CacheAgrees(tab: SymTab, cache: map<u64, Sym>) {
    forall a :: a in cache ==> cache[a] == SymAt(tab, a)
  }

  /** Exactly the thunks first looked up in this sample are ignored. */
  ghost predicate IgnoreValid(tab: SymTab, cache: map<u64, Sym>, stale: set<u64>, ignore: set<u64>) {
    && stale <= cache.Keys
    && forall a :: a in ignore <==> a in cache && a !in stale && IsThunk(SymAt(tab, a))
  }

  ghost predicate Cached(cache: map<u64, Sym>, stack: seq<Entry>) {
    forall i :: 0 <= i < |stack| ==> CodeAddress(stack[i].address) in cache
  }

  lemma CachedGrows(cache: map<u64, Sym>, larger: map<u64, Sym>, stack: seq<Entry>)
    requires Cached(cache, stack) && forall a :: a in cache ==> a in larger
    ensures Cached(larger, stack)
  {
  }

  class TraceConverter {
    var symCache: map<u64, Sym>
    const dry: bool
    var numEvents: int
    var json: seq<Span>            // the "X" events of the files written so far
    ghost var before: seq<Span>    // `json` when the current thread was begun
    ghost var emitted: seq<Span>   // what was emitted since, written out or not

    constructor (dry: bool)
      ensures symCache == map[] && json == [] && emitted == [] && Consistent()
      ensures this.dry == dry
    {
      symCache, numEvents, json, before, emitted := map[], 0, [], [], [];
      this.dry := dry;
    }

    ghost predicate Consistent()
      reads this
    {
      && numEvents == |emitted|
      && json == before + if dry then [] else Written(emitted)
    }

    method WriteFunctionCallEvent(sym: Sym, callCycle: u64, returnCycle: u64, extraNs: int)
      requires Consistent()
      modifies this`numEvents, this`json, this`emitted
      ensures Consistent()
      ensures emitted == old(emitted) + [Span(sym, callCycle, returnCycle, extraNs)]
    {
      ghost var span := Span(sym, callCycle, returnCycle, extraNs);
      WrittenMore(emitted, span);
      emitted := emitted + [span];
      numEvents := numEvents + 1;
      if dry {
        return;
      }
      if returnCycle != 0 && callCycle != 0 {
        json := json + [Span(sym, callCycle, returnCycle, extraNs)];
      }
    }

    /** A cached symbol. */
    method Resolve(tab: SymTab, e: Entry) returns (sym: Sym)
      requires CacheAgrees(tab, symCache) && CodeAddress(e.address) in symCache
      ensures sym == SymOf(tab, e)
    {
      sym := symCache[CodeAddress(e.address)];
    }

    /** Pops a frame off what is left of `stack0`. */
    method PopFrame(tab: SymTab, stack: seq<Entry>, ghost stack0: seq<Entry>, ghost m: nat)
      returns (rest: seq<Entry>, callSym: Sym, callCycle: u64)
      requires CacheAgrees(tab, symCache) && Cached(symCache, stack0)
      requires 0 < m <= |stack0| && stack == stack0[..m]
      ensures rest == stack0[..m - 1]
      ensures callSym == SymOf(tab, stack0[m - 1]) && callCycle == stack0[m - 1].cycle
    {
      var last := stack[|stack| - 1];
      callSym := Resolve(tab, last);
      callCycle := last.cycle;
      rest := stack[..|stack| - 1];
    }

    /** Emits the call of frame `m`, those above it having been emitted. */
    method EmitFrame(tab: SymTab, sym: Sym, callCycle: u64, now: u64, shift: int,
                     ghost stack: seq<Entry>, ghost m: nat, ghost firstShift: int, ghost out: seq<Span>)
      requires Consistent() && m < |stack|
      requires sym == SymOf(tab, stack[m]) && callCycle == stack[m].cycle
      requires shift == firstShift + |stack| - 1 - m
      requires emitted == out + Close(tab, stack, m + 1, now, firstShift)
      modifies this`numEvents, this`json, this`emitted
      ensures Consistent()
      ensures emitted == out + Close(tab, stack, m, now, firstShift)
    {
      WriteFunctionCallEvent(sym, callCycle, now, shift);
      CloseMore(tab, stack, m + 1, now, firstShift);
    }

    /** The pop loop of a catch event. */
    method PopUnwound(tab: SymTab, stack0: seq<Entry>, entry: Entry) returns (stack: seq<Entry>)
      requires Consistent() && CacheAgrees(tab, symCache)
      requires Cached(symCache, stack0) && CodeAddress(entry.address) in symCache
      modifies this`numEvents, this`json, this`emitted
      ensures Consistent()
      ensures var lo := Topmost(tab, stack0, NameOf(tab, entry), true) + 1;
              && stack == stack0[..lo]
              && emitted == old(emitted) + Close(tab, stack0, lo, entry.cycle, 1)
    {
      hide Topmost, CacheAgrees, Consistent, Close;
      stack := stack0;
      var catcher := Resolve(tab, entry);
      var unwound := 0;
      ghost var lo := |stack|;
      while stack != []
        invariant Consistent()
        invariant lo == |stack| <= |stack0| && stack == stack0[..lo]
        invariant unwound == |stack0| - lo
        invariant emitted == old(emitted) + Close(tab, stack0, lo, entry.cycle, 1)
        invariant forall j :: lo <= j < |stack0| ==> !Stops(tab, stack0[j], catcher.func, true)
      {
        var last := stack[|stack| - 1];
        assert last == stack0[lo - 1];
        if ReturnsUponThrow(last.address) {
          break;
        }
        var callSym := Resolve(tab, last);
        if catcher.func == callSym.func {
          break;
        }
        unwound := unwound + 1;
        EmitFrame(tab, callSym, last.cycle, entry.cycle, unwound, stack0, lo - 1, 1, old(emitted));
        stack := stack[..|stack| - 1];
        lo := lo - 1;
      }
      TopmostUnique(tab, stack0, catcher.func, true, lo - 1);
    }

    /** The loop that pops until the returning function is found, or the stack is empty. */
    method PopUntilFound(tab: SymTab, stack0: seq<Entry>, entry: Entry, retSym: Sym, callSym0: Sym, callCycle0: u64)
      returns (stack: seq<Entry>, callSym: Sym, callCycle: u64, popped: nat)
      requires Consistent() && CacheAgrees(tab, symCache) && stack0 != [] && Cached(symCache, stack0)
      requires var top := stack0[|stack0| - 1]; callSym0 == SymOf(tab, top) && callCycle0 == top.cycle
      requires retSym == SymOf(tab, entry) && retSym.func != callSym0.func
      modifies this`numEvents, this`json, this`emitted
      ensures Consistent()
      ensures var m := OwnReturnLow(tab, stack0, entry);
              && stack == stack0[..m]
              && callSym == SymOf(tab, stack0[m]) && callCycle == stack0[m].cycle && popped == |stack0| - 1 - m
              && emitted == old(emitted) + Close(tab, stack0, OwnReturnEmptied(tab, stack0, entry), entry.cycle, 0)
    {
      hide CacheAgrees, Consistent, Close;
      ghost var target := Topmost(tab, stack0, retSym.func, false);
      ghost var m := |stack0| - 1;
      stack, callSym, callCycle, popped := stack0[..|stack0| - 1], callSym0, callCycle0, 0;
      var found := false;
      assert !Stops(tab, stack0[m], retSym.func, false);
      while !found
        invariant Consistent()
        invariant 0 <= m < |stack0| && target <= m && stack == stack0[..m]
        invariant callSym == SymOf(tab, stack0[m]) && callCycle == stack0[m].cycle
        invariant popped == |stack0| - 1 - m
        invariant found <==> m == target
        invariant emitted == old(emitted) + Close(tab, stack0, m + 1, entry.cycle, 0)
        decreases m, !found
      {
        EmitFrame(tab, callSym, callCycle, entry.cycle, popped, stack0, m, 0, old(emitted));
        if stack == [] {
          break;
        }
        stack, callSym, callCycle := PopFrame(tab, stack, stack0, m);
        popped := popped + 1;
        m := m - 1;
        found := retSym.func == callSym.func;
        assert found <==> Stops(tab, stack0[m], retSym.func, false);
      }
    }

    /** An own-address return with a non-empty stack. */
    method PopReturning(tab: SymTab, stack0: seq<Entry>, entry: Entry) returns (stack: seq<Entry>)
      requires Consistent() && CacheAgrees(tab, symCache) && stack0 != []
      requires Cached(symCache, stack0) && CodeAddress(entry.address) in symCache
      modifies this`numEvents, this`json, this`emitted
      ensures Consistent()
      ensures stack == stack0[..OwnReturnLow(tab, stack0, entry)]
      ensures emitted == old(emitted) + OwnReturnSpans(tab, stack0, entry)
    {
      hide CacheAgrees, Topmost, Consistent, Close;
      var retSym := Resolve(tab, entry);
      OwnReturnTop(tab, stack0, entry);
      var callSym, callCycle;
      stack, callSym, callCycle := PopFrame(tab, stack0, stack0, |stack0|);
      var popped := 0;
      if retSym.func != callSym.func {
        stack, callSym, callCycle, popped := PopUntilFound(tab, stack0, entry, retSym, callSym, callCycle);
      }
      WriteFunctionCallEvent(callSym, callCycle, entry.cycle, popped);
    }

    /** The loop that pops until the frame below is the named caller. */
    method PopUntilCaller(tab: SymTab, stack0: seq<Entry>, entry: Entry, retSym: Sym, callSym0: Sym, callCycle0: u64,
                          ghost lo: nat)
      returns (stack: seq<Entry>, callSym: Sym, callCycle: u64, popped: nat)
      requires Consistent() && CacheAgrees(tab, symCache) && Cached(symCache, stack0)
      requires 0 < lo < |stack0| - 1
      requires forall m :: lo <= m < |stack0| - 1 ==> (CalledFrom(tab, stack0, m, retSym.func) <==> m == lo)
      requires var top := stack0[|stack0| - 1]; callSym0 == SymOf(tab, top) && callCycle0 == top.cycle
      modifies this`numEvents, this`json, this`emitted
      ensures Consistent()
      ensures && stack == stack0[..lo]
              && callSym == SymOf(tab, stack0[lo]) && callCycle == stack0[lo].cycle && popped == |stack0| - 1 - lo
              && emitted == old(emitted) + Close(tab, stack0, lo + 1, entry.cycle, 0)
    {
      hide CacheAgrees, Consistent, Close;
      ghost var m := |stack0| - 1;
      stack, callSym, callCycle, popped := stack0[..|stack0| - 1], callSym0, callCycle0, 0;
      var found := false;
      while !found
        invariant Consistent()
        invariant 0 < lo <= m < |stack0| && stack == stack0[..m]
        invariant callSym == SymOf(tab, stack0[m]) && callCycle == stack0[m].cycle
        invariant popped == |stack0| - 1 - m
        invariant found <==> m == lo
        invariant emitted == old(emitted) + Close(tab, stack0, m + 1, entry.cycle, 0)
        decreases m, !found
      {
        EmitFrame(tab, callSym, callCycle, entry.cycle, popped, stack0, m, 0, old(emitted));
        if stack == [] {
          break;
        }
        stack, callSym, callCycle := PopFrame(tab, stack, stack0, m);
        popped := popped + 1;
        m := m - 1;
        found := TopIs(tab, stack, retSym, stack0, m);
      }
    }

    /** A caller-address return with a non-empty stack. */
    method PopReturningInto(tab: SymTab, stack0: seq<Entry>, entry: Entry) returns (stack: seq<Entry>)
      requires Consistent() && CacheAgrees(tab, symCache) && stack0 != []
      requires Cached(symCache, stack0) && CodeAddress(entry.address) in symCache
      modifies this`numEvents, this`json, this`emitted
      ensures Consistent()
      ensures var lo := CallerReturnLow(tab, stack0, entry);
              && stack == stack0[..lo]
              && emitted == old(emitted) + Close(tab, stack0, lo, entry.cycle, 0)
    {
      var retSym := Resolve(tab, entry);
      ghost var lo := CallerReturnLow(tab, stack0, entry);
      var callSym, callCycle;
      stack, callSym, callCycle := PopFrame(tab, stack0, stack0, |stack0|);
      var popped := 0;
      if stack != [] {
        var mismatch := ReturnsElsewhere(tab, stack, retSym);
        if mismatch {
          CallerReturnStops(tab, stack0, entry);
          stack, callSym, callCycle, popped := PopUntilCaller(tab, stack0, entry, retSym, callSym, callCycle, lo);
        }
      }
      EmitFrame(tab, callSym, callCycle, entry.cycle, popped, stack0, lo, 0, old(emitted));
    }

    /** `found` of the caller-address recovery loop. */
    method TopIs(tab: SymTab, stack: seq<Entry>, sym: Sym, ghost stack0: seq<Entry>, ghost m: nat) returns (b: bool)
      requires CacheAgrees(tab, symCache) && Cached(symCache, stack0)
      requires m <= |stack0| && stack == stack0[..m]
      ensures b <==> CalledFrom(tab, stack0, m, sym.func)
    {
      if stack == [] {
        return false;
      }
      var top := Resolve(tab, stack[|stack| - 1]);
      return top.func == sym.func;
    }

    /** The top of the stack is not the named caller, which is further down. */
    method ReturnsElsewhere(tab: SymTab, stack: seq<Entry>, sym: Sym) returns (b: bool)
      requires CacheAgrees(tab, symCache) && Cached(symCache, stack) && stack != []
      ensures b <==> 0 <= Topmost(tab, stack, sym.func, false) < |stack| - 1
    {
      var top := Resolve(tab, stack[|stack| - 1]);
      if sym.func == top.func {
        return false;
      }
      b := exists i :: 0 <= i < |stack| && symCache[CodeAddress(stack[i].address)].func == sym.func;
      if b {
        ghost var i :| 0 <= i < |stack| && symCache[CodeAddress(stack[i].address)].func == sym.func;
        assert Stops(tab, stack[i], sym.func, false);
      }
    }

    /** Caches the symbol of an address met for the first time, ignoring it from then on if it is a thunk. */
    method Admit(tab: SymTab, entry: Entry, ignore0: set<u64>, ghost stale: set<u64>)
      returns (ignored: bool, ignore: set<u64>)
      requires CacheAgrees(tab, symCache) && IgnoreValid(tab, symCache, stale, ignore0)
      modifies this`symCache
      ensures CacheAgrees(tab, symCache) && IgnoreValid(tab, symCache, stale, ignore)
      ensures symCache.Keys == old(symCache).Keys + {CodeAddress(entry.address)}
      ensures ignored <==> IsThunk(SymOf(tab, entry)) && CodeAddress(entry.address) !in stale
    {
      ignore := ignore0;
      var addr := CodeAddress(entry.address);
      if addr !in symCache {
        var sym := SymAt(tab, addr);
        if IsThunk(sym) {
          ignore := ignore + {addr};
        }
        symCache := symCache[addr := sym];
      }
      ignored := addr in ignore;
    }

    /** A return event: an orphan one if nothing is on the stack. */
    method HandleReturn(tab: SymTab, earliest: u64, entry: Entry,
                        stack0: seq<Entry>, expecting0: Sym, orphans0: nat, ghost out: seq<Span>)
      returns (stack: seq<Entry>, expecting: Sym, orphans: nat)
      requires KindOf(entry.address) == OwnReturn || KindOf(entry.address) == CallerReturn
      requires Consistent() && CacheAgrees(tab, symCache)
      requires Cached(symCache, stack0) && CodeAddress(entry.address) in symCache
      requires emitted == out
      modifies this`numEvents, this`json, this`emitted
      ensures Consistent() && stack <= stack0
      ensures State(stack, expecting, orphans, emitted)
           == Step(tab, earliest, State(stack0, expecting0, orphans0, out), entry)
    {
      hide CacheAgrees, Cached, SymAt, Topmost, OwnReturnLow, OwnReturnSpans, CallerReturnLow;
      stack, expecting, orphans := stack0, expecting0, orphans0;
      var retSym := Resolve(tab, entry);
      var withCaller := KindOf(entry.address) == CallerReturn;
      if stack == [] {
        orphans := orphans + 1;
        WriteFunctionCallEvent(if withCaller then expecting else retSym, earliest, entry.cycle, -(orphans as int));
      } else if withCaller {
        stack := PopReturningInto(tab, stack, entry);
      } else {
        stack := PopReturning(tab, stack, entry);
      }
      if withCaller {
        expecting := retSym;
      }
    }

    /** One event that is neither too old nor ignored. */
    method HandleEvent(tab: SymTab, earliest: u64, entry: Entry,
                       stack0: seq<Entry>, expecting0: Sym, orphans0: nat, ghost out: seq<Span>)
      returns (stack: seq<Entry>, expecting: Sym, orphans: nat)
      requires Consistent() && CacheAgrees(tab, symCache)
      requires Cached(symCache, stack0) && CodeAddress(entry.address) in symCache
      requires emitted == out
      modifies this`numEvents, this`json, this`emitted
      ensures Consistent() && Cached(symCache, stack)
      ensures State(stack, expecting, orphans, emitted)
           == Step(tab, earliest, State(stack0, expecting0, orphans0, out), entry)
    {
      match KindOf(entry.address) {
        case Catch =>
          stack := PopUnwound(tab, stack0, entry);
          expecting, orphans := expecting0, orphans0;
        case Call =>
          stack, expecting, orphans := stack0 + [entry], expecting0, orphans0;
        case _ =>
          stack, expecting, orphans := HandleReturn(tab, earliest, entry, stack0, expecting0, orphans0, out);
      }
    }

    /** The frames still open after the last event. */
    method CloseOpenFrames(tab: SymTab, stack: seq<Entry>, latest: u64)
      requires Consistent() && CacheAgrees(tab, symCache) && Cached(symCache, stack)
      modifies this`numEvents, this`json, this`emitted
      ensures Consistent()
      ensures emitted == old(emitted) + Finish(tab, stack, latest)
    {
      hide CacheAgrees, Finish;
      ghost var tail := Finish(tab, stack, latest);
      var fakeReturns := |stack|;
      for k := 0 to |stack|
        invariant Consistent()
        invariant fakeReturns == |stack| - k
        invariant emitted == old(emitted) + tail[..k]
      {
        var callSym := Resolve(tab, stack[k]);
        WriteFunctionCallEvent(callSym, stack[k].cycle, latest, fakeReturns);
        assert tail[..k + 1] == tail[..k] + [tail[k]];
        fakeReturns := fakeReturns - 1;
      }
    }

    /** The decoder loop over one thread's entries. */
    method DecodeThread(tab: SymTab, entries: seq<Entry>, oldest: u64, ignore0: set<u64>, ghost stale: set<u64>)
      returns (ignore: set<u64>)
      requires entries != []
      requires CacheAgrees(tab, symCache) && IgnoreValid(tab, symCache, stale, ignore0)
      modifies this
      ensures CacheAgrees(tab, symCache) && IgnoreValid(tab, symCache, stale, ignore)
      ensures Consistent() && before == old(json) && emitted == ThreadSpans(tab, entries, oldest, stale)
      ensures symCache.Keys == old(symCache).Keys + LookedUp(entries, oldest)
    {
      hide Kept, Run, Step, IgnoreValid, CacheAgrees, IsThunk, KindOf, SymOf, CodeAddress;
      before, emitted, numEvents := json, [], 0;
      ignore := ignore0;
      var stack, expecting, orphans := [], UNKNOWN_SYM, 0;
      var earliest := Max(entries[0].cycle, oldest);
      var latest := entries[|entries| - 1].cycle;
      NothingKept(tab, earliest, entries, oldest, stale);
      for n := 0 to |entries|
        invariant CacheAgrees(tab, symCache) && IgnoreValid(tab, symCache, stale, ignore)
        invariant Consistent() && before == old(json) && Cached(symCache, stack)
        invariant symCache.Keys == old(symCache).Keys + LookedUp(entries[..n], oldest)
        invariant State(stack, expecting, orphans, emitted)
               == Run(tab, earliest, INIT, Kept(tab, entries[..n], oldest, stale))
      {
        KeptPrefix(tab, entries, oldest, stale, n);
        assert entries[..n + 1][..n] == entries[..n];
        if oldest > entries[n].cycle {
          continue;
        }
        var ignored;
        ghost var cache := symCache;
        ignored, ignore := Admit(tab, entries[n], ignore, stale);
        CachedGrows(cache, symCache, stack);
        if ignored {
          continue;
        }
        RunMore(tab, earliest, INIT, Kept(tab, entries[..n], oldest, stale), entries[n]);
        stack, expecting, orphans := HandleEvent(tab, earliest, entries[n], stack, expecting, orphans, emitted);
      }
      assert entries[..|entries|] == entries;
      CloseOpenFrames(tab, stack, latest);
    }

    /** The age limit of a sample, from its events or the command line. */
    method OldestEvent(sample: seq<ReadThread>, threads: seq<u64>, ftrace: seq<u64>,
                       maxAge: Option<u64>, oldestTime: Option<u64>)
      returns (result: u64)
      requires NoneEmpty(sample)
      ensures result == OldestEventOf(sample, threads, ftrace, maxAge, oldestTime)
    {
      var youngest: u64, oldest: u64 := 0, TWO_64 - 1;
      for i := 0 to |sample|
        invariant oldest == EarliestFirst(sample[..i], threads) && youngest == LatestLast(sample[..i], threads)
      {
        assert sample[..i + 1][..i] == sample[..i];
        if Selected(threads, sample[i]) {
          oldest := Min(sample[i].trace[0].cycle, oldest);
          youngest := Max(sample[i].trace[|sample[i].trace| - 1].cycle, youngest);
        }
      }
      assert sample[..|sample|] == sample;
      if ftrace != [] {
        oldest := Min(ftrace[0], oldest);
        youngest := Max(ftrace[|ftrace| - 1], youngest);
      }
      if maxAge.Some? {
        result := (youngest - maxAge.value) % TWO_64;
      } else if oldestTime.Some? {
        result := oldestTime.value;
      } else {
        result := oldest;
      }
    }

    /** The threads of a sample, one after the other; addresses to ignore are forgotten between samples,
    cached symbols are not. */
    method WriteSample(tab: SymTab, sample: seq<ReadThread>, threads: seq<u64>, oldest: u64)
      requires NoneEmpty(sample) && CacheAgrees(tab, symCache)
      modifies this
      ensures CacheAgrees(tab, symCache)
      ensures json == old(json) + JsonOf(dry, SampleSpans(tab, sample, threads, oldest, old(symCache).Keys))
      ensures symCache.Keys == old(symCache).Keys + SampleLookedUp(sample, threads, oldest)
    {
      hide CacheAgrees, ThreadSpans, LookedUp;
      ghost var stale := symCache.Keys;
      ghost var spans: seq<Span> := [];
      var ignore: set<u64> := {};
      assert json == old(json) + JsonOf(dry, spans);
      for i := 0 to |sample|
        invariant CacheAgrees(tab, symCache) && IgnoreValid(tab, symCache, stale, ignore)
        invariant spans == SampleSpans(tab, sample[..i], threads, oldest, stale)
        invariant json == old(json) + JsonOf(dry, spans)
        invariant symCache.Keys == stale + SampleLookedUp(sample[..i], threads, oldest)
      {
        assert sample[..i + 1][..i] == sample[..i];
        if Selected(threads, sample[i]) {
          ignore := WriteThread(tab, sample[i].trace, oldest, ignore, stale, old(json), spans);
          spans := spans + ThreadSpans(tab, sample[i].trace, oldest, stale);
        }
      }
      assert sample[..|sample|] == sample;
    }

    /** One more thread's calls in the file. */
    method WriteThread(tab: SymTab, entries: seq<Entry>, oldest: u64, ignore0: set<u64>, ghost stale: set<u64>,
                       ghost json0: seq<Span>, ghost spans: seq<Span>)
      returns (ignore: set<u64>)
      requires entries != [] && json == json0 + JsonOf(dry, spans)
      requires CacheAgrees(tab, symCache) && IgnoreValid(tab, symCache, stale, ignore0)
      modifies this
      ensures CacheAgrees(tab, symCache) && IgnoreValid(tab, symCache, stale, ignore)
      ensures json == json0 + JsonOf(dry, spans + ThreadSpans(tab, entries, oldest, stale))
      ensures symCache.Keys == old(symCache).Keys + LookedUp(entries, oldest)
    {
      hide ThreadSpans, CacheAgrees, IgnoreValid, Run;
      ignore := DecodeThread(tab, entries, oldest, ignore0, stale);
      WrittenConcat(spans, emitted);
    }

    /** New memory maps may put other functions at the addresses cached. */
    method ForgetSymbols()
      modifies this`symCache
      ensures symCache == map[]
    {
      symCache := map[];
    }
  }
}
