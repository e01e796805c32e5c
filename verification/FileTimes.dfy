/** The times of the calls of any file: what the timeline promises of sorted events, for the events that reading
leaves over and with the time base that is subtracted from them. */
module FileTimes {
  import opened Events
  import opened Search
  import opened Bytes
  import opened Decoder
  import opened Nesting
  import opened Timeline
  import opened TraceFile
  import opened Converter
  import opened WholeFile
  import opened PrintedTimes

  lemma {:induction false} KeptInOrder(tab: SymTab, entries: seq<Entry>, oldest: u64, stale: set<u64>, last: u64)
    requires Sorted(entries) && forall i :: 0 <= i < |entries| ==> entries[i].cycle <= last
    ensures var kept := Kept(tab, entries, oldest, stale);
            && Sorted(kept)
            && forall i :: 0 <= i < |kept| ==> oldest <= kept[i].cycle <= last
    decreases |entries|
  {
    if entries != [] {
      var m := |entries| - 1;
      KeptInOrder(tab, entries[..m], oldest, stale, entries[m].cycle);
    }
  }

  lemma {:induction false} KeptAfterFirst(tab: SymTab, entries: seq<Entry>, oldest: u64, stale: set<u64>, first: u64)
    requires forall i :: 0 <= i < |entries| ==> entries[i].cycle >= first
    ensures forall e :: e in Kept(tab, entries, oldest, stale) ==> e.cycle >= first
    decreases |entries|
  {
    if entries != [] {
      KeptAfterFirst(tab, entries[..|entries| - 1], oldest, stale, first);
    }
  }

  /** The events decoded of a thread lie where decoding assumes them. */
  lemma KeptInRange(tab: SymTab, entries: seq<Entry>, oldest: u64, stale: set<u64>)
    requires entries != [] && Sorted(entries)
    ensures var kept := Kept(tab, entries, oldest, stale);
            && Sorted(kept)
            && forall i :: 0 <= i < |kept| ==>
                 Max(entries[0].cycle, oldest) <= kept[i].cycle <= entries[|entries| - 1].cycle
  {
    hide Kept;
    KeptInOrder(tab, entries, oldest, stale, entries[|entries| - 1].cycle);
    KeptAfterFirst(tab, entries, oldest, stale, entries[0].cycle);
    var kept := Kept(tab, entries, oldest, stale);
    assert forall i :: 0 <= i < |kept| ==> kept[i] in kept;
  }

  /** Calls nested or apart, none before `base`, and none that ends before it starts. */
  ghost predicate Orderly(spans: seq<Span>, base: u64) {
    && (forall i, j :: 0 <= i < j < |spans| ==> NestedOrDisjoint(spans[i], spans[j]))
    && forall i :: 0 <= i < |spans| ==> base <= spans[i].start <= spans[i].end
  }

  lemma ThreadOrderly(tab: SymTab, entries: seq<Entry>, oldest: u64, stale: set<u64>)
    requires entries != [] && Sorted(entries)
    ensures Orderly(ThreadSpans(tab, entries, oldest, stale), oldest)
  {
    hide Kept, Decode, Sorted, NestedOrDisjoint;
    KeptInRange(tab, entries, oldest, stale);
    Laminar(tab, Kept(tab, entries, oldest, stale), Max(entries[0].cycle, oldest), entries[|entries| - 1].cycle);
  }

  /** What is subtracted from the times of a sample. */
  function TimeBase(opts: Settings, s: Sample, raw: bool): u64
    requires NoneEmpty(s.threads)
  {
    if raw then 0 else OldestIn(opts, s)
  }

  /** Raw times are printed as they are. Otherwise, without age limits, the first there is, event or ftrace line, is
  printed at zero. */
  lemma BaseExactly(opts: Settings, s: Sample, first: u64)
    requires NoneEmpty(s.threads) && TracesSorted(s.threads)
    requires opts.maxAge == None && opts.oldestTime == None
    requires forall i, j, cycle :: EventAt(s.threads, opts.threads, i, j, cycle) ==> first <= cycle
    requires opts.times(s.ftrace) != [] ==> first <= opts.times(s.ftrace)[0]
    requires || SomeEvent(s.threads, opts.threads, first)
             || (opts.times(s.ftrace) != [] && opts.times(s.ftrace)[0] == first)
    ensures TimeBase(opts, s, true) == 0 && TimeBase(opts, s, false) == first
  {
    LimitWithoutAge(s.threads, opts.threads, opts.times(s.ftrace), first);
  }

  /** Whatever file is read, the calls of each thread of each sample are nested or apart, and subtracting the
  time base from their starts and their starts from their ends never goes below zero. */
  lemma FileOrderly(opts: Settings, file: seq<byte>, k: nat, i: nat, raw: bool)
    requires ParseFrom(file, START).Some?
    requires var samples := ParseFrom(file, START).value.reader.samples; k < |samples| && i < |samples[k].threads|
    ensures var samples := ParseFrom(file, START).value.reader.samples;
            && Readable(samples)
            && Orderly(ThreadSpans(opts.symbols(samples[k].maps), samples[k].threads[i].trace,
                                   OldestIn(opts, samples[k]), CachedBefore(opts, samples, k)),
                       TimeBase(opts, samples[k], raw))
  {
    hide ParseFrom, ThreadSpans, OldestEventOf, Sorted, NestedOrDisjoint, CachedBefore;
    FileCoherent(file);
    var samples := ParseFrom(file, START).value.reader.samples;
    var s := samples[k];
    assert TracesSorted(s.threads) && NoneEmpty(s.threads);
    assert s.threads[i].trace != [] && Sorted(s.threads[i].trace);
    ThreadOrderly(opts.symbols(s.maps), s.threads[i].trace, OldestIn(opts, s), CachedBefore(opts, samples, k));
  }

  lemma {:induction false} SampleOrderly(tab: SymTab, sample: seq<ReadThread>, threads: seq<u64>, oldest: u64,
                                         stale: set<u64>)
    requires NoneEmpty(sample) && TracesSorted(sample)
    ensures forall s :: s in SampleSpans(tab, sample, threads, oldest, stale) ==> oldest <= s.start <= s.end
    decreases |sample|
  {
    hide ThreadSpans;
    if sample != [] {
      var m := |sample| - 1;
      SampleOrderly(tab, sample[..m], threads, oldest, stale);
      ThreadOrderly(tab, sample[m].trace, oldest, stale);
    }
  }

  /** A call of the file and the time base that goes with it. */
  ghost predicate CallOf(opts: Settings, samples: seq<Sample>, s: Span, k: nat)
    requires Readable(samples)
  {
    k < |samples| && s in SpansOf(opts, samples[k], CachedBefore(opts, samples, k))
  }

  lemma {:induction false} FromSomeSample(opts: Settings, samples: seq<Sample>, s: Span) returns (k: nat)
    requires Readable(samples) && s in FileSpans(opts, samples)
    ensures CallOf(opts, samples, s, k)
    decreases |samples|
  {
    hide SpansOf, Met;
    var m := |samples| - 1;
    if s in FileSpans(opts, samples[..m]) {
      k := FromSomeSample(opts, samples[..m], s);
      assert samples[..m][..k] == samples[..k];
    } else {
      k := m;
    }
  }

  /** Every call of any file that is read comes from some sample, and is what printing its times asks for. */
  lemma CallsPrintable(opts: Settings, file: seq<byte>, s: Span, raw: bool) returns (k: nat)
    requires ParseFrom(file, START).Some?
    requires Readable(ParseFrom(file, START).value.reader.samples)
    requires s in FileSpans(opts, ParseFrom(file, START).value.reader.samples)
    ensures CallOf(opts, ParseFrom(file, START).value.reader.samples, s, k)
    ensures TimeBase(opts, ParseFrom(file, START).value.reader.samples[k], raw) <= s.start <= s.end
  {
    hide ParseFrom, OldestEventOf, SampleSpans, CachedBefore;
    FileCoherent(file);
    var samples := ParseFrom(file, START).value.reader.samples;
    k := FromSomeSample(opts, samples, s);
    SampleOrderly(opts.symbols(samples[k].maps), samples[k].threads, opts.threads, OldestIn(opts, samples[k]),
                  CachedBefore(opts, samples, k));
  }

  /** A thread has a call with a negative timestamp exactly if its orphan returns reach back before the base, which
  they can do by the distance between the base and the thread's first event that is decoded. */
  lemma NegativeExactly(tab: SymTab, entries: seq<Entry>, oldest: u64, stale: set<u64>, freq: nat)
    requires freq > 0 && entries != [] && Sorted(entries)
    ensures (exists s :: s in ThreadSpans(tab, entries, oldest, stale) && Start(Scale(true, freq), s) < At(oldest))
       <==> OrphansBeforeBase(tab, Kept(tab, entries, oldest, stale), Max(entries[0].cycle, oldest), oldest, freq)
  {
    hide Kept, Decode, Sorted, OrphansBeforeBase, Start;
    KeptInRange(tab, entries, oldest, stale);
    var spans := ThreadSpans(tab, entries, oldest, stale);
    OrphanBeforeBase(tab, Kept(tab, entries, oldest, stale), Max(entries[0].cycle, oldest),
                     entries[|entries| - 1].cycle, oldest, freq);
    if s :| s in spans && Start(Scale(true, freq), s) < At(oldest) {
      var i :| 0 <= i < |spans| && spans[i] == s;
    }
  }
}
