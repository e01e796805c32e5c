/** From program runs to decoded calls: events traced into rings, snapshots of whole rings or of what is found in
them from some time on, the file they are written to, and the calls read back from it. */
module EndToEnd {
  import opened Events
  import opened Search
  import opened Ring
  import opened Snapshot
  import opened Bytes
  import opened TraceFile
  import opened Decoder
  import opened CallRuns
  import opened Windows
  import opened Converter
  import opened WholeFile
  import opened WholeBuffer

  /** What one thread did since its buffer of `slots` entries was allocated. */
  datatype ThreadRun = ThreadRun(id: ThreadId, stack: seq<Frame>, acts: seq<Action>, slots: nat)

  /** What a snapshot takes out of the buffers: everything, or what two searches find from some time on. */
  datatype How = Whole | From(time: u64, pause: u64)

  function Traced(tab: SymTab, r: ThreadRun): seq<Entry> { LogOf(tab, Opening(r.stack), r.acts) }

  /** The thread logged what it did, under a clock that never goes back and has not passed the pause. */
  ghost predicate Honest(tab: SymTab, r: ThreadRun, how: How) {
    && LegalRun(tab, Opening(r.stack), r.acts)
    && Clocked(Traced(tab, r)) && (how.From? ==> UpTo(Traced(tab, r), how.pause))
    && (forall e :: e in Traced(tab, r) ==> !IsThunk(SymOf(tab, e)))
    && |r.id.name| == 16 && 16 * r.slots < MAX_LENGTH
  }

  /** The thread's buffer holds what the thread logged. */
  ghost predicate Recorded(tab: SymTab, r: ThreadRun, c: Cells) {
    c.Valid() && c.log == Traced(tab, r) && |c.cells| == r.slots
  }

  /** The buffer is there to be copied out of. */
  predicate Copyable(c: Cells) { 0 < |c.cells| && c.cursor <= |c.cells| }

  /** What is copied out of a buffer. */
  function Taken(c: Cells, how: How): seq<Entry>
    requires Copyable(c)
  {
    match how
    case Whole => c.cells
    case From(time, pause) => Copied(c.cells, c.cursor, time, pause)
  }

  /** A whole buffer's order can be recovered. */
  predicate Recoverable(c: Cells, how: How)
    requires Copyable(c)
  {
    how.Whole? ==> ReadsBack(c)
  }

  /** What a snapshot should have of the thread: the last `slots` events, or of these the ones from `time` on,
  unless that is after the pause. */
  function Snapped(tab: SymTab, r: ThreadRun, how: How): seq<Entry> {
    match how
    case Whole => LastOf(Traced(tab, r), r.slots)
    case From(time, pause) => Wanted(Traced(tab, r), r.slots, time, pause)
  }

  /** The calls of the thread in the window that the snapshot shows. */
  function TrueCalls(tab: SymTab, r: ThreadRun, how: How): seq<Span> {
    var copy := Snapped(tab, r, how);
    if copy == [] then []
    else
      TrueSpans(tab, copy[0].cycle, copy[|copy| - 1].cycle,
                Opening(WindowStack(tab, r.stack, r.acts, |copy|)),
                WindowActs(tab, r.stack, r.acts, |copy|))
  }

  /** The window can be decoded from names alone. */
  ghost predicate Tellable(tab: SymTab, r: ThreadRun, how: How) {
    var n := |Snapped(tab, r, how)|;
    DecodableRun(tab, Opening(WindowStack(tab, r.stack, r.acts, n)), WindowActs(tab, r.stack, r.acts, n))
  }

  lemma WantedIsSuffix(log: seq<Entry>, n: nat, time: u64, pause: u64)
    requires Sorted(log)
    ensures var copy := Wanted(log, n, time, pause);
            |copy| <= |log| && |copy| <= n && copy == log[|log| - |copy|..]
  {
    hide Older, FromTime, Sorted;
    var last := LastOf(log, n);
    SuffixSorted(log, |log| - |last|);
    OlderSplits(last, time);
    assert last[Older(last, time)..] == log[|log| - |last| + Older(last, time)..];
  }

  lemma SnappedIsSuffix(tab: SymTab, r: ThreadRun, how: How)
    requires Sorted(Traced(tab, r))
    ensures var log, copy := Traced(tab, r), Snapped(tab, r, how);
            |copy| <= |log| && |copy| <= r.slots && copy == log[|log| - |copy|..]
  {
    hide Traced, Wanted, Sorted;
    if how.From? {
      WantedIsSuffix(Traced(tab, r), r.slots, how.time, how.pause);
    }
  }

  /** What the two searches copy out of the thread's buffer. */
  lemma RingShowsSnapped(tab: SymTab, r: ThreadRun, c: Cells, how: How)
    requires Recorded(tab, r, c) && Honest(tab, r, how) && how.From?
    ensures Copyable(c) && Taken(c, how) == Snapped(tab, r, how)
  {
    RangesExact(c, how.time, how.pause);
  }

  /** What the reader makes of what was copied out of a buffer. */
  lemma TakenReadBack(tab: SymTab, r: ThreadRun, c: Cells, how: How)
    requires Recorded(tab, r, c) && Honest(tab, r, how)
    ensures Copyable(c) && |Taken(c, how)| <= r.slots
    ensures SortByCycle(NonZero(Taken(c, how))) == Snapped(tab, r, how) <==> Recoverable(c, how)
  {
    hide NonZero, SortByCycle, Sorted, Traced, Wanted, Copied, ReadsBack;
    match how
    case Whole => WholeExactly(c);
    case From(_, _) =>
      RingShowsSnapped(tab, r, c, how);
      SnappedIsSuffix(tab, r, how);
      SnappedUnchanged(tab, r, how);
  }

  /** What is already in order survives being read back. */
  lemma SnappedUnchanged(tab: SymTab, r: ThreadRun, how: How)
    requires Honest(tab, r, how)
    ensures var copy := Snapped(tab, r, how);
            NonZero(copy) == copy && SortByCycle(copy) == copy
  {
    hide NonZero, SortByCycle, Sorted, Snapped, Traced;
    var log, copy := Traced(tab, r), Snapped(tab, r, how);
    SnappedIsSuffix(tab, r, how);
    SuffixSorted(log, |log| - |copy|);
    assert forall i :: 0 <= i < |copy| ==> copy[i] == log[|log| - |copy| + i];
    NonZeroUnchanged(copy);
    SortedUnchanged(copy);
  }

  lemma SnappedKept(tab: SymTab, r: ThreadRun, how: How, oldest: u64, stale: set<u64>)
    requires Honest(tab, r, how)
    requires var copy := Snapped(tab, r, how); copy != [] && oldest <= copy[0].cycle
    ensures var copy := Snapped(tab, r, how); Kept(tab, copy, oldest, stale) == copy
  {
    hide Traced, Snapped, Sorted, Kept, IsThunk;
    var log, copy := Traced(tab, r), Snapped(tab, r, how);
    SnappedIsSuffix(tab, r, how);
    SuffixKept(tab, log, |log| - |copy|, oldest, stale);
  }

  lemma SuffixKept(tab: SymTab, log: seq<Entry>, i: nat, oldest: u64, stale: set<u64>)
    requires i < |log| && Sorted(log) && oldest <= log[i].cycle
    requires forall e :: e in log ==> !IsThunk(SymOf(tab, e))
    ensures Kept(tab, log[i..], oldest, stale) == log[i..]
  {
    AllKept(tab, log[i..], oldest, stale);
  }

  /** A thread's part of the sample is decoded to its true calls. */
  lemma ThreadDecoded(tab: SymTab, r: ThreadRun, how: How, oldest: u64, stale: set<u64>)
    requires Honest(tab, r, how) && Tellable(tab, r, how)
    requires var copy := Snapped(tab, r, how); copy != [] && oldest <= copy[0].cycle
    ensures ThreadSpans(tab, Snapped(tab, r, how), oldest, stale) == TrueCalls(tab, r, how)
  {
    hide Snapped, Sorted, Kept, Decode, TrueSpans, WindowStack, WindowActs, LogOf, LegalRun;
    var copy := Snapped(tab, r, how);
    var n := |copy|;
    SnappedIsSuffix(tab, r, how);
    SnappedKept(tab, r, how, oldest, stale);
    LogSuffixIsWindow(tab, r.stack, r.acts, n);
    WindowDecoded(tab, copy[0].cycle, copy[n - 1].cycle,
                  WindowStack(tab, r.stack, r.acts, n), WindowActs(tab, r.stack, r.acts, n));
  }

  /** If the buffer holds all that was logged, these are the calls of the whole run. */
  lemma SmallRunDecoded(tab: SymTab, r: ThreadRun)
    requires Honest(tab, r, Whole) && Tellable(tab, r, Whole) && DecodableRun(tab, Opening(r.stack), r.acts)
    requires var log := LogOf(tab, Opening(r.stack), r.acts); log != [] && |log| <= r.slots
    ensures var log := LogOf(tab, Opening(r.stack), r.acts);
            && Snapped(tab, r, Whole) == log
            && TrueCalls(tab, r, Whole)
               == TrueSpans(tab, log[0].cycle, log[|log| - 1].cycle, Opening(r.stack), r.acts)
  {
    hide LegalRun, LogOf, DecodableRun, Decode, TrueSpans, WindowStack, WindowActs;
    var log := LogOf(tab, Opening(r.stack), r.acts);
    var n := |log|;
    LogSuffixIsWindow(tab, r.stack, r.acts, n);
    assert log[|log| - n..] == log;
    WindowDecoded(tab, log[0].cycle, log[n - 1].cycle, r.stack, r.acts);
    WindowDecoded(tab, log[0].cycle, log[n - 1].cycle,
                  WindowStack(tab, r.stack, r.acts, n), WindowActs(tab, r.stack, r.acts, n));
  }

  // All threads of a snapshot, and all snapshots of a file.

  /** A snapshot about to be taken: what the threads did, their buffers, and what goes into the file besides. */
  datatype Take = Take(
    runs: seq<ThreadRun>,
    rings: seq<Cells>,
    how: How,
    maps: seq<byte>,
    freq: u64,
    cmdLine: seq<byte>,
    ftrace: seq<seq<byte>>)

  /** The buffer holds what the thread logged, and can be read back. */
  ghost predicate Held(tab: SymTab, r: ThreadRun, c: Cells, how: How) {
    Recorded(tab, r, c) && Honest(tab, r, how) && Copyable(c) && Recoverable(c, how)
  }

  /** Every thread can be told apart by names, and its buffer holds what it logged and can be read back. */
  ghost predicate ThreadsReady(tab: SymTab, runs: seq<ThreadRun>, rings: seq<Cells>, how: How) {
    && |rings| == |runs|
    && forall i :: 0 <= i < |runs| ==> Held(tab, runs[i], rings[i], how) && Tellable(tab, runs[i], how)
  }

  /** No part of the snapshot is too long for the file. */
  predicate Fits(t: Take) {
    |t.maps| < MAX_LENGTH && |t.cmdLine| < MAX_LENGTH && |FtraceText(t.ftrace)| < MAX_LENGTH
  }

  ghost predicate Ready(opts: Settings, t: Take) {
    ThreadsReady(opts.symbols(t.maps), t.runs, t.rings, t.how) && Fits(t)
  }

  ghost predicate Shaped(rings: seq<Cells>) { forall i :: 0 <= i < |rings| ==> Copyable(rings[i]) }

  /** What is copied out of the buffers. */
  function Buffers(runs: seq<ThreadRun>, rings: seq<Cells>, how: How): (bs: seq<EventBuffer>)
    requires |rings| == |runs| && Shaped(rings)
    ensures |bs| == |runs|
    ensures forall i :: 0 <= i < |runs| ==> bs[i] == EventBuffer(runs[i].id, Taken(rings[i], how))
  {
    seq(|runs|, i requires 0 <= i < |runs| => EventBuffer(runs[i].id, Taken(rings[i], how)))
  }

  function SnapshotOf(t: Take): SnapshotData
    requires |t.rings| == |t.runs| && Shaped(t.rings)
  {
    SnapshotData(t.maps, t.freq, t.cmdLine, Buffers(t.runs, t.rings, t.how), t.ftrace)
  }

  function AllTrueCalls(tab: SymTab, runs: seq<ThreadRun>, how: How): seq<Span> {
    if runs == [] then []
    else AllTrueCalls(tab, runs[..|runs| - 1], how) + TrueCalls(tab, runs[|runs| - 1], how)
  }

  /** What reading adds for one thread. */
  function ReadRun(tab: SymTab, r: ThreadRun, how: How): seq<ReadThread> {
    var copy := Snapped(tab, r, how);
    if copy == [] then [] else [ReadThread(r.id, copy)]
  }

  lemma FrontReady(tab: SymTab, runs: seq<ThreadRun>, rings: seq<Cells>, how: How)
    requires ThreadsReady(tab, runs, rings, how) && runs != []
    ensures ThreadsReady(tab, runs[..|runs| - 1], rings[..|rings| - 1], how) && Shaped(rings)
    ensures Shaped(rings[..|rings| - 1])
    ensures Buffers(runs, rings, how)[..|runs| - 1]
         == Buffers(runs[..|runs| - 1], rings[..|rings| - 1], how)
  {
    hide Recorded, Honest, Tellable, Taken, Recoverable;
  }

  lemma ReadMore(tab: SymTab, runs: seq<ThreadRun>, rings: seq<Cells>, how: How)
    requires runs != [] && ThreadsReady(tab, runs, rings, how) && Shaped(rings) && Shaped(rings[..|rings| - 1])
    ensures ReadThreads(Buffers(runs, rings, how))
         == ReadThreads(Buffers(runs[..|runs| - 1], rings[..|rings| - 1], how))
            + ReadRun(tab, runs[|runs| - 1], how)
  {
    hide Recorded, Honest, Tellable, Taken, Recoverable, NonZero, SortByCycle, Snapped;
    var m := |runs| - 1;
    FrontReady(tab, runs, rings, how);
    TakenReadBack(tab, runs[m], rings[m], how);
    SortedNothing(NonZero(Taken(rings[m], how)));
  }

  lemma SortedNothing(es: seq<Entry>)
    ensures SortByCycle(es) == [] <==> es == []
  {
    SortSorts(es);
    assert |multiset(SortByCycle(es))| == |multiset(es)|;
  }

  ghost predicate NoneOlder(threads: seq<ReadThread>, oldest: u64) {
    forall i :: 0 <= i < |threads| ==> threads[i].trace != [] && oldest <= threads[i].trace[0].cycle
  }

  lemma NoneOlderParts(a: seq<ReadThread>, b: seq<ReadThread>, oldest: u64)
    requires NoneOlder(a + b, oldest)
    ensures NoneOlder(a, oldest) && NoneOlder(b, oldest)
  {
    assert forall i :: 0 <= i < |a| ==> a[i] == (a + b)[i];
    assert forall i :: 0 <= i < |b| ==> b[i] == (a + b)[|a| + i];
  }

  lemma OneMoreThread(tab: SymTab, threads: seq<ReadThread>, t: ReadThread, oldest: u64, stale: set<u64>)
    requires NoneOlder(threads, oldest) && t.trace != [] && oldest <= t.trace[0].cycle
    ensures NoneOlder(threads + [t], oldest)
    ensures SampleSpans(tab, threads + [t], [], oldest, stale)
         == SampleSpans(tab, threads, [], oldest, stale) + ThreadSpans(tab, t.trace, oldest, stale)
  {
    hide ThreadSpans;
    assert (threads + [t])[..|threads|] == threads;
  }

  /** One more thread adds its true calls. */
  lemma DecodeMore(tab: SymTab, threads: seq<ReadThread>, r: ThreadRun, how: How, oldest: u64, stale: set<u64>)
    requires Honest(tab, r, how) && Tellable(tab, r, how)
    requires NoneOlder(threads, oldest) && NoneOlder(ReadRun(tab, r, how), oldest)
    ensures NoneOlder(threads + ReadRun(tab, r, how), oldest)
    ensures SampleSpans(tab, threads + ReadRun(tab, r, how), [], oldest, stale)
         == SampleSpans(tab, threads, [], oldest, stale) + TrueCalls(tab, r, how)
  {
    hide Honest, Tellable, Snapped, ThreadSpans, TrueCalls, SampleSpans;
    var copy := Snapped(tab, r, how);
    if copy == [] {
      NoCalls(tab, r, how);
      assert threads + ReadRun(tab, r, how) == threads;
    } else {
      var t := ReadThread(r.id, copy);
      assert ReadRun(tab, r, how) == [t] && [t][0] == t;
      ThreadDecoded(tab, r, how, oldest, stale);
      OneMoreThread(tab, threads, t, oldest, stale);
    }
  }

  lemma NoCalls(tab: SymTab, r: ThreadRun, how: How)
    requires Snapped(tab, r, how) == []
    ensures TrueCalls(tab, r, how) == []
  {
  }

  lemma {:induction false} AllDecoded(tab: SymTab, runs: seq<ThreadRun>, rings: seq<Cells>, how: How,
                                      oldest: u64, stale: set<u64>)
    requires ThreadsReady(tab, runs, rings, how) && Shaped(rings)
    requires NoneOlder(ReadThreads(Buffers(runs, rings, how)), oldest)
    ensures SampleSpans(tab, ReadThreads(Buffers(runs, rings, how)), [], oldest, stale)
         == AllTrueCalls(tab, runs, how)
    decreases |runs|
  {
    hide Recorded, Honest, Tellable, Snapped, TrueCalls, NoneOlder;
    if runs != [] {
      var before, r := runs[..|runs| - 1], runs[|runs| - 1];
      var rings0 := rings[..|rings| - 1];
      FrontReady(tab, runs, rings, how);
      var threads := ReadThreads(Buffers(before, rings0, how));
      ReadMore(tab, runs, rings, how);
      NoneOlderParts(threads, ReadRun(tab, r, how), oldest);
      AllDecoded(tab, before, rings0, how, oldest, stale);
      DecodeMore(tab, threads, r, how, oldest, stale);
    }
  }

  lemma SnapshotWritable(opts: Settings, t: Take)
    requires Ready(opts, t) && Shaped(t.rings)
    ensures Writable(SnapshotOf(t))
  {
    var tab := opts.symbols(t.maps);
    var threads := SnapshotOf(t).threads;
    forall i | 0 <= i < |t.runs| ensures |threads[i].id.name| == 16 && 16 * |threads[i].events| < MAX_LENGTH {
      TakenReadBack(tab, t.runs[i], t.rings[i], t.how);
    }
  }

  /** No age limit, and all threads. */
  predicate Unlimited(opts: Settings) { opts.threads == [] && opts.maxAge == None && opts.oldestTime == None }

  lemma SampleDecoded(opts: Settings, t: Take, stale: set<u64>)
    requires Ready(opts, t) && Shaped(t.rings) && Unlimited(opts)
    ensures |SampleOf(SnapshotOf(t))| <= 1 && Readable(SampleOf(SnapshotOf(t)))
    ensures forall s :: s in SampleOf(SnapshotOf(t)) ==>
              SpansOf(opts, s, stale) == AllTrueCalls(opts.symbols(t.maps), t.runs, t.how)
    ensures SampleOf(SnapshotOf(t)) == [] ==> AllTrueCalls(opts.symbols(t.maps), t.runs, t.how) == []
  {
    hide AllTrueCalls, SampleSpans, Recorded, Honest, Tellable, ReadThreads, FtraceText;
    var threads := ReadThreads(SnapshotOf(t).threads);
    ReadThreadsSorted(SnapshotOf(t).threads);
    var stamps := opts.times(FtraceText(t.ftrace));
    var oldest := OldestEventOf(threads, [], stamps, None, None);
    forall i | 0 <= i < |threads| ensures oldest <= threads[i].trace[0].cycle {
      EarliestFirstIsFirst(threads, [], i);
    }
    AllDecoded(opts.symbols(t.maps), t.runs, t.rings, t.how, oldest, stale);
    NothingDecoded(opts.symbols(t.maps), oldest, stale);
  }

  lemma NothingDecoded(tab: SymTab, oldest: u64, stale: set<u64>)
    ensures SampleSpans(tab, [], [], oldest, stale) == []
  {
  }

  ghost predicate AllReady(opts: Settings, takes: seq<Take>) { forall k :: 0 <= k < |takes| ==> Ready(opts, takes[k]) }

  ghost predicate AllShaped(takes: seq<Take>) {
    forall k :: 0 <= k < |takes| ==> |takes[k].rings| == |takes[k].runs| && Shaped(takes[k].rings)
  }

  /** Buffers that hold what was logged are there to be copied out of. */
  lemma AllReadyShaped(opts: Settings, takes: seq<Take>)
    requires AllReady(opts, takes)
    ensures AllShaped(takes)
  {
    forall k | 0 <= k < |takes| ensures |takes[k].rings| == |takes[k].runs| && Shaped(takes[k].rings) {
      var t := takes[k];
      assert Ready(opts, t);
    }
  }

  function SnapshotsOf(takes: seq<Take>): (s: seq<SnapshotData>)
    requires AllShaped(takes)
    ensures |s| == |takes| && forall k :: 0 <= k < |s| ==> s[k] == SnapshotOf(takes[k])
  {
    seq(|takes|, k requires 0 <= k < |takes| => SnapshotOf(takes[k]))
  }

  /** The true calls of all snapshots, one after the other. */
  function FileCalls(opts: Settings, takes: seq<Take>): seq<Span> {
    if takes == [] then []
    else
      var t := takes[|takes| - 1];
      FileCalls(opts, takes[..|takes| - 1]) + AllTrueCalls(opts.symbols(t.maps), t.runs, t.how)
  }

  lemma {:induction false} TakesDecoded(opts: Settings, takes: seq<Take>)
    requires AllReady(opts, takes) && AllShaped(takes) && Unlimited(opts)
    ensures Readable(SamplesOf(SnapshotsOf(takes)))
    ensures UncachedSpans(opts, SamplesOf(SnapshotsOf(takes))) == FileCalls(opts, takes)
    decreases |takes|
  {
    hide Ready, Shaped, SampleOf, SpansOf, AllTrueCalls, Unlimited;
    if takes != [] {
      var m := |takes| - 1;
      var before := SamplesOf(SnapshotsOf(takes[..m]));
      assert SnapshotsOf(takes)[..m] == SnapshotsOf(takes[..m]);
      TakesDecoded(opts, takes[..m]);
      SampleDecoded(opts, takes[m], {});
      SamplesMore(opts, before, SampleOf(SnapshotOf(takes[m])),
                  AllTrueCalls(opts.symbols(takes[m].maps), takes[m].runs, takes[m].how));
    }
  }

  lemma SamplesMore(opts: Settings, before: seq<Sample>, more: seq<Sample>, calls: seq<Span>)
    requires Readable(before) && Readable(more) && |more| <= 1
    requires if more == [] then calls == [] else SpansOf(opts, more[0], {}) == calls
    ensures Readable(before + more)
    ensures UncachedSpans(opts, before + more) == UncachedSpans(opts, before) + calls
  {
    if more == [] {
      assert before + more == before;
    } else {
      assert (before + more)[..|before|] == before;
    }
  }

  /** Tracing runs into rings, taking snapshots of the quiescent threads, each whole or from some time on, writing
  them, and reading and decoding the file with no age limit gives exactly the true calls of the last events the
  rings hold, or of those from that time on if it is not after the pause. */
  lemma TracedCallsDecoded(opts: Settings, takes: seq<Take>)
    requires AllReady(opts, takes) && Unlimited(opts)
    ensures AllShaped(takes)
    ensures AllWellFormed(FileChunks(SnapshotsOf(takes)))
    ensures var o := ParseFrom(EncodeChunks(FileChunks(SnapshotsOf(takes))), START);
            && o.Some? && o.value.ok && Coherent(o.value.reader.samples)
            && FileSpans(opts, o.value.reader.samples) == FileCalls(opts, takes)
  {
    hide Ready, FileSpans, UncachedSpans, Writable, ParseFrom, Unlimited, Coherent, Readable, FileCalls;
    AllReadyShaped(opts, takes);
    var snapshots := SnapshotsOf(takes);
    forall s | s in snapshots ensures Writable(s) {
      var k :| 0 <= k < |snapshots| && snapshots[k] == s;
      SnapshotWritable(opts, takes[k]);
    }
    FileRoundTrip(snapshots);
    FileCoherent(EncodeChunks(FileChunks(snapshots)));
    TakesDecoded(opts, takes);
    SnapshotsUncached(opts, snapshots);
  }

  // The same from how the program is built.

  /** Every window of a run that can be told can be decoded, wherever the snapshot cuts its log. */
  lemma BuiltTellable(tab: SymTab, traced: set<string>, r: ThreadRun, how: How)
    requires Honest(tab, r, how) && Built(tab, traced, r.stack, r.acts)
    ensures Tellable(tab, r, how)
  {
    hide Snapped, Sorted, WindowStack, WindowActs, LegalRun, Built;
    SnappedIsSuffix(tab, r, how);
    WindowsDecodable(tab, traced, r.stack, r.acts, |Snapped(tab, r, how)|);
  }

  /** Every thread runs a program so built, and its buffer holds what it logged. */
  ghost predicate BuiltTake(opts: Settings, traced: set<string>, t: Take) {
    && |t.rings| == |t.runs| && Fits(t)
    && forall i :: 0 <= i < |t.runs| ==>
         && Held(opts.symbols(t.maps), t.runs[i], t.rings[i], t.how)
         && Built(opts.symbols(t.maps), traced, t.runs[i].stack, t.runs[i].acts)
  }

  lemma BuiltReady(opts: Settings, traced: set<string>, t: Take)
    requires BuiltTake(opts, traced, t)
    ensures Ready(opts, t)
  {
    hide Built, Tellable, Honest, Recorded, Recoverable;
    forall i | 0 <= i < |t.runs| ensures Tellable(opts.symbols(t.maps), t.runs[i], t.how) {
      BuiltTellable(opts.symbols(t.maps), traced, t.runs[i], t.how);
    }
  }

  /** Whatever programs do that are built so that they can be told, and wherever snapshots cut their logs: the file
  is decoded to exactly the true calls of what the rings hold. */
  lemma BuiltDecoded(opts: Settings, traced: set<string>, takes: seq<Take>)
    requires (forall t :: t in takes ==> BuiltTake(opts, traced, t)) && Unlimited(opts)
    ensures AllShaped(takes)
    ensures AllWellFormed(FileChunks(SnapshotsOf(takes)))
    ensures var o := ParseFrom(EncodeChunks(FileChunks(SnapshotsOf(takes))), START);
            && o.Some? && o.value.ok && Coherent(o.value.reader.samples)
            && FileSpans(opts, o.value.reader.samples) == FileCalls(opts, takes)
  {
    hide BuiltTake, Ready, Unlimited, FileSpans, FileCalls, ParseFrom, Coherent;
    forall k | 0 <= k < |takes| ensures Ready(opts, takes[k]) {
      BuiltReady(opts, traced, takes[k]);
    }
    TracedCallsDecoded(opts, takes);
  }

  /** The same with the loops that do it. */
  method ReadAndDecode(converter: TraceConverter, opts: Settings, file: seq<byte>, ghost takes: seq<Take>)
    requires AllReady(opts, takes) && AllShaped(takes) && Unlimited(opts)
    requires AllWellFormed(FileChunks(SnapshotsOf(takes))) && file == EncodeChunks(FileChunks(SnapshotsOf(takes)))
    requires converter.symCache == map[]
    modifies converter
    ensures converter.json == old(converter.json) + JsonOf(converter.dry, FileCalls(opts, takes))
  {
    hide AllReady, Coherent, Readable, FileSpans, JsonOf;
    TracedCallsDecoded(opts, takes);
    var reader, ok := ParseChunks(file);
    WriteSamples(converter, opts, reader.samples);
  }
}
