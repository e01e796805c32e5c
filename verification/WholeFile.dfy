/** The conversion of a whole file: sample after sample, with one symbol cache that new memory maps empty. */
module WholeFile {
  import opened Events
  import opened Search
  import opened Bytes
  import opened Decoder
  import opened TraceFile
  import opened Converter

  /** The command line's choices, what symbol lookup answers under given memory maps, and the timestamps of
  a sample's ftrace text. */
  datatype Settings = Settings(
    threads: seq<u64>,
    maxAge: Option<u64>,
    oldestTime: Option<u64>,
    symbols: seq<byte> -> SymTab,
    times: seq<byte> -> seq<u64>)

  ghost predicate Readable(samples: seq<Sample>) {
    forall k :: 0 <= k < |samples| ==> NoneEmpty(samples[k].threads)
  }

  function OldestIn(opts: Settings, s: Sample): u64
    requires NoneEmpty(s.threads)
  {
    OldestEventOf(s.threads, opts.threads, opts.times(s.ftrace), opts.maxAge, opts.oldestTime)
  }

  /** The addresses whose symbols decoding a sample looks up. */
  function Met(opts: Settings, s: Sample): set<u64>
    requires NoneEmpty(s.threads)
  {
    SampleLookedUp(s.threads, opts.threads, OldestIn(opts, s))
  }

  /** The addresses in the symbol cache after the samples. */
  function CachedAfter(opts: Settings, samples: seq<Sample>): set<u64>
    requires Readable(samples)
  {
    if samples == [] then {}
    else
      var m := |samples| - 1;
      (if samples[m].remapped then {} else CachedAfter(opts, samples[..m])) + Met(opts, samples[m])
  }

  /** The addresses in the symbol cache when sample `k` is begun. */
  function CachedBefore(opts: Settings, samples: seq<Sample>, k: nat): set<u64>
    requires Readable(samples) && k < |samples|
  {
    if samples[k].remapped then {} else CachedAfter(opts, samples[..k])
  }

  function SpansOf(opts: Settings, s: Sample, stale: set<u64>): seq<Span>
    requires NoneEmpty(s.threads)
  {
    SampleSpans(opts.symbols(s.maps), s.threads, opts.threads, OldestIn(opts, s), stale)
  }

  /** What the file's samples are converted to. */
  function FileSpans(opts: Settings, samples: seq<Sample>): seq<Span>
    requires Readable(samples)
  {
    if samples == [] then []
    else
      var m := |samples| - 1;
      FileSpans(opts, samples[..m]) + SpansOf(opts, samples[m], CachedBefore(opts, samples, m))
  }

  /** The same with every symbol looked up anew in every sample. */
  function UncachedSpans(opts: Settings, samples: seq<Sample>): seq<Span>
    requires Readable(samples)
  {
    if samples == [] then []
    else
      var m := |samples| - 1;
      UncachedSpans(opts, samples[..m]) + SpansOf(opts, samples[m], {})
  }

  /** The samples of a file, in the order they are read. */
  method WriteSamples(converter: TraceConverter, opts: Settings, samples: seq<Sample>)
    requires Coherent(samples) && converter.symCache == map[]
    modifies converter
    ensures converter.json == old(converter.json) + JsonOf(converter.dry, FileSpans(opts, samples))
  {
    assert converter.json == old(converter.json) + JsonOf(converter.dry, FileSpans(opts, samples[..0]));
    for k := 0 to |samples|
      invariant Readable(samples[..k])
      invariant converter.symCache.Keys == CachedAfter(opts, samples[..k])
      invariant k > 0 ==> CacheAgrees(opts.symbols(samples[k - 1].maps), converter.symCache)
      invariant converter.json == old(converter.json) + JsonOf(converter.dry, FileSpans(opts, samples[..k]))
    {
      assert samples[..k + 1][..k] == samples[..k];
      WriteNext(converter, opts, samples, k, old(converter.json));
    }
    assert samples[..|samples|] == samples;
  }

  method WriteNext(converter: TraceConverter, opts: Settings, samples: seq<Sample>, k: nat, ghost json0: seq<Span>)
    requires Coherent(samples) && k < |samples| && Readable(samples[..k])
    requires converter.symCache.Keys == CachedAfter(opts, samples[..k])
    requires k > 0 ==> CacheAgrees(opts.symbols(samples[k - 1].maps), converter.symCache)
    requires converter.json == json0 + JsonOf(converter.dry, FileSpans(opts, samples[..k]))
    modifies converter
    ensures Readable(samples[..k + 1])
    ensures converter.symCache.Keys == CachedAfter(opts, samples[..k + 1])
    ensures CacheAgrees(opts.symbols(samples[k].maps), converter.symCache)
    ensures converter.json == json0 + JsonOf(converter.dry, FileSpans(opts, samples[..k + 1]))
  {
    hide JsonOf, SampleSpans, SampleLookedUp, OldestEventOf;
    var s := samples[k];
    assert samples[..k + 1][..k] == samples[..k] && samples[..k + 1][k] == s;
    if s.remapped {
      converter.ForgetSymbols();
    }
    var oldest := converter.OldestEvent(s.threads, opts.threads, opts.times(s.ftrace), opts.maxAge, opts.oldestTime);
    ghost var stale := converter.symCache.Keys;
    assert stale == CachedBefore(opts, samples[..k + 1], k);
    converter.WriteSample(opts.symbols(s.maps), s.threads, opts.threads, oldest);
    JsonConcat(converter.dry, FileSpans(opts, samples[..k]), SpansOf(opts, s, stale));
  }

  lemma JsonConcat(dry: bool, a: seq<Span>, b: seq<Span>)
    ensures JsonOf(dry, a + b) == JsonOf(dry, a) + JsonOf(dry, b)
  {
    WrittenConcat(a, b);
  }

  // Thunks.

  /** No maps came after sample `j` up to sample `k`. */
  ghost predicate SameMaps(samples: seq<Sample>, j: nat, k: nat) {
    j < k < |samples| && forall m :: j < m <= k ==> !samples[m].remapped
  }

  /** The address was met in an earlier sample under the same maps. */
  ghost predicate MetBefore(opts: Settings, samples: seq<Sample>, k: nat, a: u64)
    requires Readable(samples) && k < |samples|
  {
    exists j: nat :: SameMaps(samples, j, k) && a in Met(opts, samples[j])
  }

  lemma {:induction false} CachedExactly(opts: Settings, samples: seq<Sample>, k: nat, a: u64)
    requires Coherent(samples) && Readable(samples) && k < |samples|
    ensures a in CachedBefore(opts, samples, k) <==> MetBefore(opts, samples, k, a)
    decreases k
  {
    hide Met, Coherent;
    if samples[k].remapped {
      assert forall j: nat :: !SameMaps(samples, j, k);
    } else {
      FirstRemapped(samples, k);
      CachedExactly(opts, samples, k - 1, a);
      CachedStep(opts, samples, k);
      MetStep(opts, samples, k, a);
    }
  }

  lemma FirstRemapped(samples: seq<Sample>, k: nat)
    requires Coherent(samples) && k < |samples| && !samples[k].remapped
    ensures k > 0
  {
  }

  lemma CachedStep(opts: Settings, samples: seq<Sample>, k: nat)
    requires Readable(samples) && 0 < k < |samples| && !samples[k].remapped
    ensures CachedBefore(opts, samples, k) == CachedBefore(opts, samples, k - 1) + Met(opts, samples[k - 1])
  {
    assert samples[..k][..k - 1] == samples[..k - 1];
  }

  lemma MetStep(opts: Settings, samples: seq<Sample>, k: nat, a: u64)
    requires Readable(samples) && 0 < k < |samples| && !samples[k].remapped
    ensures MetBefore(opts, samples, k, a) <==> MetBefore(opts, samples, k - 1, a) || a in Met(opts, samples[k - 1])
  {
    hide Met;
    if a in Met(opts, samples[k - 1]) {
      assert SameMaps(samples, k - 1, k);
    }
    if MetBefore(opts, samples, k - 1, a) {
      var j: nat :| SameMaps(samples, j, k - 1) && a in Met(opts, samples[j]);
      assert SameMaps(samples, j, k);
    }
    if MetBefore(opts, samples, k, a) {
      var j: nat :| SameMaps(samples, j, k) && a in Met(opts, samples[j]);
      assert j < k - 1 ==> SameMaps(samples, j, k - 1);
    }
  }

  lemma {:induction false} LookedUpExactly(entries: seq<Entry>, oldest: u64, a: u64)
    ensures a in LookedUp(entries, oldest)
       <==> exists e :: e in entries && e.cycle >= oldest && CodeAddress(e.address) == a
    decreases |entries|
  {
    if entries != [] {
      var m := |entries| - 1;
      LookedUpExactly(entries[..m], oldest, a);
      assert entries == entries[..m] + [entries[m]];
    }
  }

  lemma {:induction false} SampleLookedUpExactly(sample: seq<ReadThread>, threads: seq<u64>, oldest: u64, a: u64)
    ensures a in SampleLookedUp(sample, threads, oldest)
       <==> exists t :: t in sample && Selected(threads, t) && a in LookedUp(t.trace, oldest)
    decreases |sample|
  {
    if sample != [] {
      var m := |sample| - 1;
      SampleLookedUpExactly(sample[..m], threads, oldest, a);
      assert sample == sample[..m] + [sample[m]];
    }
  }

  /** An entry of a thunk is among those kept. */
  ghost predicate KeepsAThunk(tab: SymTab, entries: seq<Entry>, oldest: u64, stale: set<u64>) {
    exists e :: e in Kept(tab, entries, oldest, stale) && IsThunk(SymOf(tab, e))
  }

  ghost predicate AnyThunk(tab: SymTab, sample: seq<ReadThread>, threads: seq<u64>, oldest: u64, stale: set<u64>) {
    exists t :: t in sample && Selected(threads, t) && KeepsAThunk(tab, t.trace, oldest, stale)
  }

  /** An entry of a thunk is among those decoded from sample `k`. */
  ghost predicate DecodesThunk(opts: Settings, samples: seq<Sample>, k: nat)
    requires Readable(samples) && k < |samples|
  {
    AnyThunk(opts.symbols(samples[k].maps), samples[k].threads, opts.threads, OldestIn(opts, samples[k]),
             CachedBefore(opts, samples, k))
  }

  /** A thunk met in sample `k` was met before under the same maps. */
  ghost predicate MeetsThunkAgain(opts: Settings, samples: seq<Sample>, k: nat)
    requires Readable(samples) && k < |samples|
  {
    exists a :: MetBefore(opts, samples, k, a) && a in Met(opts, samples[k])
                && IsThunk(SymAt(opts.symbols(samples[k].maps), a))
  }

  /** A thunk is decoded exactly if it was already met in an earlier sample under the same maps. */
  lemma ThunkDecodedExactly(opts: Settings, samples: seq<Sample>, k: nat)
    requires Coherent(samples) && Readable(samples) && k < |samples|
    ensures DecodesThunk(opts, samples, k) <==> MeetsThunkAgain(opts, samples, k)
  {
    hide KeepsAThunk, CachedBefore, Met, IsThunk, SymAt, Selected, Coherent, OldestEventOf;
    var s := samples[k];
    var tab, oldest, stale := opts.symbols(s.maps), OldestIn(opts, s), CachedBefore(opts, samples, k);
    if DecodesThunk(opts, samples, k) {
      var t :| t in s.threads && Selected(opts.threads, t) && KeepsAThunk(tab, t.trace, oldest, stale);
      var a := ThunkKept(tab, t.trace, oldest, stale);
      MetBy(opts, s, t, a);
      CachedExactly(opts, samples, k, a);
    }
    if MeetsThunkAgain(opts, samples, k) {
      var a :| MetBefore(opts, samples, k, a) && a in Met(opts, s) && IsThunk(SymAt(tab, a));
      CachedExactly(opts, samples, k, a);
      var t := MetIn(opts, s, a);
      ThunkStays(tab, t.trace, oldest, stale, a);
    }
  }

  lemma MetBy(opts: Settings, s: Sample, t: ReadThread, a: u64)
    requires NoneEmpty(s.threads) && t in s.threads && Selected(opts.threads, t)
    requires a in LookedUp(t.trace, OldestIn(opts, s))
    ensures a in Met(opts, s)
  {
    SampleLookedUpExactly(s.threads, opts.threads, OldestIn(opts, s), a);
  }

  lemma MetIn(opts: Settings, s: Sample, a: u64) returns (t: ReadThread)
    requires NoneEmpty(s.threads) && a in Met(opts, s)
    ensures t in s.threads && Selected(opts.threads, t) && a in LookedUp(t.trace, OldestIn(opts, s))
  {
    SampleLookedUpExactly(s.threads, opts.threads, OldestIn(opts, s), a);
    t :| t in s.threads && Selected(opts.threads, t) && a in LookedUp(t.trace, OldestIn(opts, s));
  }

  lemma ThunkKept(tab: SymTab, entries: seq<Entry>, oldest: u64, stale: set<u64>) returns (a: u64)
    requires KeepsAThunk(tab, entries, oldest, stale)
    ensures a in LookedUp(entries, oldest) && a in stale && IsThunk(SymAt(tab, a))
  {
    ThunksSkippedExactly(tab, entries, oldest, stale);
    var e :| e in entries && e.cycle >= oldest && IsThunk(SymOf(tab, e)) && CodeAddress(e.address) in stale;
    a := CodeAddress(e.address);
    LookedUpExactly(entries, oldest, a);
  }

  lemma ThunkStays(tab: SymTab, entries: seq<Entry>, oldest: u64, stale: set<u64>, a: u64)
    requires a in LookedUp(entries, oldest) && a in stale && IsThunk(SymAt(tab, a))
    ensures KeepsAThunk(tab, entries, oldest, stale)
  {
    LookedUpExactly(entries, oldest, a);
    var e0 :| e0 in entries && e0.cycle >= oldest && CodeAddress(e0.address) == a;
    ThunksSkippedExactly(tab, entries, oldest, stale);
  }

  /** Where no thunk is met again, the cache does not show. */
  lemma {:induction false} CacheInvisible(opts: Settings, samples: seq<Sample>)
    requires Coherent(samples) && Readable(samples)
    requires forall k :: 0 <= k < |samples| ==> !MeetsThunkAgain(opts, samples, k)
    ensures FileSpans(opts, samples) == UncachedSpans(opts, samples)
    decreases |samples|
  {
    if samples != [] {
      var m := |samples| - 1;
      FrontMeetsNone(opts, samples);
      CacheInvisible(opts, samples[..m]);
      ThunkDecodedExactly(opts, samples, m);
      SampleUncached(opts, samples, m);
    }
  }

  lemma FrontMeetsNone(opts: Settings, samples: seq<Sample>)
    requires Coherent(samples) && Readable(samples) && samples != []
    requires forall k :: 0 <= k < |samples| ==> !MeetsThunkAgain(opts, samples, k)
    ensures var front := samples[..|samples| - 1];
            && Coherent(front) && Readable(front)
            && forall k :: 0 <= k < |front| ==> !MeetsThunkAgain(opts, front, k)
  {
    var front := samples[..|samples| - 1];
    forall k | 0 <= k < |front| ensures !MeetsThunkAgain(opts, front, k) {
      FrontMeets(opts, samples, k);
    }
  }

  lemma FrontMeets(opts: Settings, samples: seq<Sample>, k: nat)
    requires k < |samples| - 1 && Readable(samples) && Readable(samples[..|samples| - 1])
    ensures MeetsThunkAgain(opts, samples[..|samples| - 1], k) ==> MeetsThunkAgain(opts, samples, k)
  {
    hide Met, IsThunk, SymAt;
    var front := samples[..|samples| - 1];
    if MeetsThunkAgain(opts, front, k) {
      var a :| && MetBefore(opts, front, k, a) && a in Met(opts, front[k])
               && IsThunk(SymAt(opts.symbols(front[k].maps), a));
      var j: nat :| SameMaps(front, j, k) && a in Met(opts, front[j]);
      assert SameMaps(samples, j, k);
      assert MetBefore(opts, samples, k, a);
    }
  }

  lemma SampleUncached(opts: Settings, samples: seq<Sample>, k: nat)
    requires Readable(samples) && k < |samples| && !DecodesThunk(opts, samples, k)
    ensures SpansOf(opts, samples[k], CachedBefore(opts, samples, k)) == SpansOf(opts, samples[k], {})
  {
    var s := samples[k];
    var tab, oldest, stale := opts.symbols(s.maps), OldestIn(opts, s), CachedBefore(opts, samples, k);
    ThreadsUncached(tab, s.threads, opts.threads, oldest, stale);
  }

  lemma {:induction false} ThreadsUncached(tab: SymTab, sample: seq<ReadThread>, threads: seq<u64>, oldest: u64,
                                           stale: set<u64>)
    requires NoneEmpty(sample)
    requires !AnyThunk(tab, sample, threads, oldest, stale)
    ensures SampleSpans(tab, sample, threads, oldest, stale) == SampleSpans(tab, sample, threads, oldest, {})
    decreases |sample|
  {
    hide KeepsAThunk, ThreadSpans;
    if sample != [] {
      var m := |sample| - 1;
      ThreadsUncached(tab, sample[..m], threads, oldest, stale);
      if Selected(threads, sample[m]) {
        ThreadUncached(tab, sample[m].trace, oldest, stale);
      }
    }
  }

  lemma ThreadUncached(tab: SymTab, entries: seq<Entry>, oldest: u64, stale: set<u64>)
    requires entries != [] && !KeepsAThunk(tab, entries, oldest, stale)
    ensures ThreadSpans(tab, entries, oldest, stale) == ThreadSpans(tab, entries, oldest, {})
  {
    KeptUncached(tab, entries, oldest, stale);
  }

  lemma {:induction false} KeptUncached(tab: SymTab, entries: seq<Entry>, oldest: u64, stale: set<u64>)
    requires !KeepsAThunk(tab, entries, oldest, stale)
    ensures Kept(tab, entries, oldest, stale) == Kept(tab, entries, oldest, {})
    decreases |entries|
  {
    if entries != [] {
      var m := |entries| - 1;
      KeptUncached(tab, entries[..m], oldest, stale);
      if Keeps(tab, entries[m], oldest, stale) {
        assert entries[m] in Kept(tab, entries, oldest, stale);
      }
    }
  }

  /** In a file of snapshots no thunk is ever decoded, and the cache does not show. */
  lemma SnapshotsUncached(opts: Settings, snapshots: seq<SnapshotData>)
    ensures Readable(SamplesOf(snapshots))
    ensures forall k :: 0 <= k < |SamplesOf(snapshots)| ==> !DecodesThunk(opts, SamplesOf(snapshots), k)
    ensures FileSpans(opts, SamplesOf(snapshots)) == UncachedSpans(opts, SamplesOf(snapshots))
  {
    hide DecodesThunk, FileSpans, UncachedSpans, Met, NoneEmpty;
    var samples := SamplesOf(snapshots);
    SnapshotsFresh(snapshots);
    forall k | 0 <= k < |samples| ensures !MeetsThunkAgain(opts, samples, k) && !DecodesThunk(opts, samples, k) {
      assert samples[k].remapped;
      ThunkDecodedExactly(opts, samples, k);
    }
    CacheInvisible(opts, samples);
  }

  // Two samples under the same maps.

  const THUNK_SYM: Sym := Sym("virtual override thunk", 8)

  function Caller(): ThreadId { ThreadId(1, 1, [0, 0, 0, 0, 0, 0, 0, 0, 0, 0, 0, 0, 0, 0, 0, 0]) }

  function OneCall(cycle: u64, remapped: bool): Sample {
    Sample([], remapped, 0, [], [ReadThread(Caller(), [Entry(8, cycle)])], [])
  }

  function OneCallChunks(cycle: u64): seq<Chunk> {
    [Chunk(THREADID, EncodeThreadId(Caller())), Chunk(TRACEBUF, EncodeEntries([Entry(8, cycle)]))]
    + [Chunk(ENDTRACE, [])]
  }

  /** One list of maps, and two samples. */
  function StaleChunks(): seq<Chunk> { [Chunk(PROCMAPS, [])] + (OneCallChunks(1) + OneCallChunks(2)) }

  lemma OneCallConsumed(r: Reader, cycle: u64)
    requires !HasData(r) && cycle > 0
    ensures ConsumeAll(r, OneCallChunks(cycle))
         == Emit(r.(id := Caller(), threads := [ReadThread(Caller(), [Entry(8, cycle)])]))
  {
    hide EncodeThreadId, EncodeEntries, SortByCycle, NonZero, Consume;
    var entries := [Entry(8, cycle)];
    ConsumeConcat(r, OneCallChunks(cycle)[..2], [Chunk(ENDTRACE, [])]);
    ConsumeThread(r, EventBuffer(Caller(), entries));
    NonZeroUnchanged(entries);
    SortedUnchanged(entries);
    assert r.threads + [ReadThread(Caller(), entries)] == [ReadThread(Caller(), entries)];
    var q := r.(id := Caller(), threads := [ReadThread(Caller(), entries)]);
    ConsumeOne(q, Chunk(ENDTRACE, []));
    EndConsumed(q);
  }

  lemma EndConsumed(r: Reader)
    requires HasData(r)
    ensures Consume(r, Chunk(ENDTRACE, [])) == Emit(r)
  {
  }

  lemma OneCallFits(cycle: u64)
    ensures AllWellFormed(OneCallChunks(cycle))
  {
    DecodeThreadIdEncoded(Caller());
    DecodeEntriesEncoded([Entry(8, cycle)]);
  }

  lemma StaleFileRead()
    ensures AllWellFormed(StaleChunks())
    ensures var o := ParseFrom(EncodeChunks(StaleChunks()), START);
            o.Some? && o.value.ok && o.value.reader.samples == [OneCall(1, true), OneCall(2, false)]
  {
    hide OneCallChunks, ConsumeAll, ParseFrom, EncodeChunks;
    OneCallFits(1);
    OneCallFits(2);
    ParseEncoded(START, StaleChunks());
    ConsumeConcat(START, [Chunk(PROCMAPS, [])], OneCallChunks(1) + OneCallChunks(2));
    ConsumeOne(START, Chunk(PROCMAPS, []));
    assert Consume(START, Chunk(PROCMAPS, [])) == START;
    ConsumeConcat(START, OneCallChunks(1), OneCallChunks(2));
    OneCallConsumed(START, 1);
    OneCallConsumed(ConsumeAll(START, OneCallChunks(1)), 2);
  }

  function ThunkAt8(maps: seq<byte>): SymTab { map[8 := THUNK_SYM] }

  function NoTimes(text: seq<byte>): seq<u64> { [] }

  function Everything(): Settings { Settings([], None, None, ThunkAt8, NoTimes) }

  /** A file in which a thunk is called in two samples under the same maps: the first call is ignored, the second
  is decoded. */
  lemma StaleThunkExample()
    ensures AllWellFormed(StaleChunks())
    ensures var o := ParseFrom(EncodeChunks(StaleChunks()), START);
            && o.Some? && o.value.ok && Coherent(o.value.reader.samples) && Readable(o.value.reader.samples)
            && FileSpans(Everything(), o.value.reader.samples) == [Span(THUNK_SYM, 2, 2, 1)]
            && UncachedSpans(Everything(), o.value.reader.samples) == []
  {
    hide SpansOf, Met, OldestIn, Everything, FileSpans, UncachedSpans, CachedBefore, ParseFrom;
    StaleFileRead();
    FileCoherent(EncodeChunks(StaleChunks()));
    var first, second := OneCall(1, true), OneCall(2, false);
    TwoSamples(Everything(), first, second);
    OneCallMet(1, true);
    OneCallSpans(1, true, {});
    OneCallSpans(2, false, {8});
    OneCallSpans(2, false, {});
  }

  lemma TwoSamples(opts: Settings, first: Sample, second: Sample)
    requires NoneEmpty(first.threads) && NoneEmpty(second.threads) && first.remapped && !second.remapped
    ensures Readable([first, second])
    ensures FileSpans(opts, [first, second]) == SpansOf(opts, first, {}) + SpansOf(opts, second, Met(opts, first))
    ensures UncachedSpans(opts, [first, second]) == SpansOf(opts, first, {}) + SpansOf(opts, second, {})
  {
    hide SpansOf, Met;
    var samples := [first, second];
    assert samples[..1] == [first] && [first][..0] == [];
    assert FileSpans(opts, [first]) == SpansOf(opts, first, {});
    assert CachedAfter(opts, [first]) == {} + Met(opts, first) == Met(opts, first);
    assert CachedBefore(opts, samples, 1) == Met(opts, first);
    assert UncachedSpans(opts, [first]) == SpansOf(opts, first, {});
  }

  lemma ThunkIsThunk()
    ensures IsThunk(THUNK_SYM)
  {
    assert THUNK_SYM.func[..|THUNK|] == THUNK;
  }

  lemma OneCallMet(cycle: u64, remapped: bool)
    ensures var s := OneCall(cycle, remapped);
            OldestIn(Everything(), s) == cycle && Met(Everything(), s) == {8}
  {
    var s := OneCall(cycle, remapped);
    assert s.threads[..0] == [] && s.threads[0].trace[..0] == [];
    assert EarliestFirst(s.threads, []) == Min(cycle, EarliestFirst([], []));
    assert LookedUp(s.threads[0].trace, cycle) == LookedUp([], cycle) + {8};
    assert SampleLookedUp(s.threads, [], cycle) == SampleLookedUp([], [], cycle) + LookedUp(s.threads[0].trace, cycle);
  }

  lemma OneCallDecoded(cycle: u64)
    ensures Decode(ThunkAt8([]), [Entry(8, cycle)], cycle, cycle) == [Span(THUNK_SYM, cycle, cycle, 1)]
  {
    var tab, e := ThunkAt8([]), Entry(8, cycle);
    assert [e][..0] == [] && SymOf(tab, e) == THUNK_SYM && KindOf(8) == Call;
    assert Run(tab, cycle, INIT, []) == INIT;
    assert Run(tab, cycle, INIT, [e]) == INIT.(stack := [e]);
    assert Finish(tab, [e], cycle) == [Span(THUNK_SYM, cycle, cycle, 1)];
  }

  lemma OneCallKept(cycle: u64, stale: set<u64>)
    ensures Kept(ThunkAt8([]), [Entry(8, cycle)], cycle, stale) == if 8 in stale then [Entry(8, cycle)] else []
  {
    hide IsThunk;
    var tab, e := ThunkAt8([]), Entry(8, cycle);
    ThunkIsThunk();
    assert [e][..0] == [] && SymOf(tab, e) == THUNK_SYM && CodeAddress(e.address) == 8;
    assert Kept(tab, [], cycle, stale) == [];
  }

  lemma NothingDecoded(cycle: u64)
    ensures Decode(ThunkAt8([]), [], cycle, cycle) == []
  {
  }

  lemma OneThread(tab: SymTab, t: ReadThread, oldest: u64, stale: set<u64>)
    requires t.trace != []
    ensures SampleSpans(tab, [t], [], oldest, stale) == ThreadSpans(tab, t.trace, oldest, stale)
  {
    hide ThreadSpans;
    assert [t][..0] == [];
    assert SampleSpans(tab, [], [], oldest, stale) == [];
  }

  lemma OneCallSpans(cycle: u64, remapped: bool, stale: set<u64>)
    ensures SpansOf(Everything(), OneCall(cycle, remapped), stale)
         == if 8 in stale then [Span(THUNK_SYM, cycle, cycle, 1)] else []
  {
    hide Kept, Decode, SampleSpans, OldestIn, Met;
    var t := OneCall(cycle, remapped).threads[0];
    OneCallMet(cycle, remapped);
    OneThread(ThunkAt8([]), t, cycle, stale);
    OneCallKept(cycle, stale);
    OneCallDecoded(cycle);
    NothingDecoded(cycle);
  }
}
