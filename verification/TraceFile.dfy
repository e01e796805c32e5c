/** The trace file: the runtime writes a snapshot as a list of chunks, the converter reads them back. A
chunk is an 8-byte magic, an 8-byte length and the content. */
module TraceFile {
  import opened Events
  import opened Search
  import opened Bytes

  const PROCMAPS: seq<byte> := [80, 82, 79, 67, 77, 65, 80, 83]
  const FUNTRACE: seq<byte> := [70, 85, 78, 84, 82, 65, 67, 69]
  const CMD_LINE: seq<byte> := [67, 77, 68, 32, 76, 73, 78, 69]
  const THREADID: seq<byte> := [84, 72, 82, 69, 65, 68, 73, 68]
  const TRACEBUF: seq<byte> := [84, 82, 65, 67, 69, 66, 85, 70]
  const FTRACETX: seq<byte> := [70, 84, 82, 65, 67, 69, 84, 88]
  const ENDTRACE: seq<byte> := [69, 78, 68, 84, 82, 65, 67, 69]

  datatype Chunk = Chunk(magic: seq<byte>, content: seq<byte>)

  /** Lengths the reader can skip by: `seek` takes a signed offset. */
  const MAX_LENGTH: int := 0x8000_0000_0000_0000

  predicate WellFormed(c: Chunk) { |c.magic| == 8 && |c.content| < MAX_LENGTH }

  function EncodeChunk(c: Chunk): seq<byte>
    requires WellFormed(c)
  {
    c.magic + Encode64(|c.content|) + c.content
  }

  predicate AllWellFormed(cs: seq<Chunk>) { forall c :: c in cs ==> WellFormed(c) }

  function EncodeChunks(cs: seq<Chunk>): seq<byte>
    requires AllWellFormed(cs)
  {
    if cs == [] then [] else EncodeChunk(cs[0]) + EncodeChunks(cs[1..])
  }

  // The writer.

  /** One thread's events in a snapshot. */
  datatype EventBuffer = EventBuffer(id: ThreadId, events: seq<Entry>)

  datatype SnapshotData = SnapshotData(
    maps: seq<byte>,
    freq: u64,
    cmdLine: seq<byte>,
    threads: seq<EventBuffer>,
    ftrace: seq<seq<byte>>)

  function ThreadChunks(threads: seq<EventBuffer>): seq<Chunk> {
    if threads == [] then []
    else
      ThreadChunks(threads[..|threads| - 1])
      + [Chunk(THREADID, EncodeThreadId(threads[|threads| - 1].id)),
         Chunk(TRACEBUF, EncodeEntries(threads[|threads| - 1].events))]
  }

  /** The lines, each with its newline. */
  function FtraceText(lines: seq<seq<byte>>): seq<byte> {
    if lines == [] then [] else FtraceText(lines[..|lines| - 1]) + lines[|lines| - 1] + [10]
  }

  function FtraceChunks(lines: seq<seq<byte>>): seq<Chunk> {
    if lines == [] then [] else [Chunk(FTRACETX, FtraceText(lines))]
  }

  function SnapshotChunks(s: SnapshotData): seq<Chunk> {
    [Chunk(PROCMAPS, s.maps), Chunk(FUNTRACE, Encode64(s.freq)), Chunk(CMD_LINE, s.cmdLine)]
    + ThreadChunks(s.threads)
    + FtraceChunks(s.ftrace)
    + [Chunk(ENDTRACE, [])]
  }

  // The reader.

  datatype ReadThread = ReadThread(id: ThreadId, trace: seq<Entry>)

  /** What is converted to one JSON file; `remapped` if no sample came between it and its maps, so that no
  symbol is cached yet. */
  datatype Sample = Sample(
    maps: seq<byte>,
    remapped: bool,
    freq: u64,
    cmdLine: seq<byte>,
    threads: seq<ReadThread>,
    ftrace: seq<byte>)

  datatype Reader = Reader(
    maps: seq<byte>,
    remapped: bool,
    freq: u64,
    cmdLine: seq<byte>,
    id: ThreadId,
    threads: seq<ReadThread>,
    ftrace: seq<byte>,
    samples: seq<Sample>)

  const NO_THREAD: ThreadId := ThreadId(0, 0, [0, 0, 0, 0, 0, 0, 0, 0, 0, 0, 0, 0, 0, 0, 0, 0])
  const START: Reader := Reader([], true, 0, [], NO_THREAD, [], [], [])

  function NonZero(es: seq<Entry>): seq<Entry> {
    if es == [] then []
    else
      var e := es[|es| - 1];
      NonZero(es[..|es| - 1]) + if e.cycle == 0 && e.address == 0 then [] else [e]
  }

  /** After the entries that are not later. */
  function Insert(sorted: seq<Entry>, e: Entry): seq<Entry> {
    if sorted == [] || sorted[|sorted| - 1].cycle <= e.cycle then sorted + [e]
    else Insert(sorted[..|sorted| - 1], e) + [sorted[|sorted| - 1]]
  }

  /** The stable sort by cycle. */
  function SortByCycle(es: seq<Entry>): seq<Entry> {
    if es == [] then [] else Insert(SortByCycle(es[..|es| - 1]), es[|es| - 1])
  }

  predicate HasData(r: Reader) { r.threads != [] || r.ftrace != [] }

  function Emit(r: Reader): Reader {
    r.(samples := r.samples + [Sample(r.maps, r.remapped, r.freq, r.cmdLine, r.threads, r.ftrace)],
       remapped := false, threads := [], ftrace := [])
  }

  /** One chunk. Those of unknown kind or unexpected length are skipped. */
  function Consume(r: Reader, c: Chunk): Reader {
    if c.magic == FUNTRACE then if |c.content| == 8 then r.(freq := Decode64(c.content)) else r
    else if c.magic == CMD_LINE then r.(cmdLine := c.content)
    else if c.magic == ENDTRACE then if |c.content| == 0 && HasData(r) then Emit(r) else r
    else if c.magic == PROCMAPS then r.(maps := c.content, remapped := true)
    else if c.magic == THREADID then
      if |c.content| == THREAD_ID_SIZE then r.(id := DecodeThreadId(c.content)) else r
    else if c.magic == TRACEBUF then ConsumeBuffer(r, c.content)
    else if c.magic == FTRACETX then r.(ftrace := c.content)
    else r
  }

  function ConsumeBuffer(r: Reader, content: seq<byte>): Reader {
    if |content| % 16 != 0 then r
    else
      var entries := NonZero(DecodeEntries(content));
      if entries == [] then r else r.(threads := r.threads + [ReadThread(r.id, SortByCycle(entries))])
  }

  /** The content is skipped over rather than read. */
  predicate Skips(magic: seq<byte>, length: nat) {
    if magic == FUNTRACE then length != 8
    else if magic == ENDTRACE then length != 0
    else if magic == THREADID then length != THREAD_ID_SIZE
    else if magic == TRACEBUF then length % 16 != 0
    else magic != CMD_LINE && magic != PROCMAPS && magic != FTRACETX
  }

  /** Skipping seeks by a signed offset, so lengths from 2^63 on lead backwards. */
  function Target(pos: nat, length: u64): int { pos + 16 + if length < MAX_LENGTH then length else length - TWO_64 }

  /** No place before the file, nor one past all positions, unless the file goes that far itself. */
  predicate Seekable(file: seq<byte>, target: int) { 0 <= target && (target <= |file| || target < MAX_LENGTH) }

  /** A file that ends within a chunk that is read is an error; the samples up to there are converted. */
  datatype Outcome = Outcome(reader: Reader, ok: bool)

  /** One turn of the reading loop stops, or goes on at some place. */
  datatype Turn = Over(outcome: Outcome) | GoesOn(pos: nat, reader: Reader)

  function FinishFile(r: Reader): Reader { if HasData(r) then Emit(r) else r }

  function ReadChunk(file: seq<byte>, pos: nat, r: Reader): Turn {
    if |file| < pos + 8 then Over(Outcome(FinishFile(r), true))
    else if |file| < pos + 16 then Over(Outcome(r, false))
    else
      var magic, length := file[pos..pos + 8], Decode64(file[pos + 8..pos + 16]);
      if Skips(magic, length) then
        if Seekable(file, Target(pos, length)) then GoesOn(Target(pos, length), r) else Over(Outcome(r, false))
      else if pos + 16 + length <= |file| then
        GoesOn(pos + 16 + length, Consume(r, Chunk(magic, file[pos + 16..pos + 16 + length])))
      else Over(Outcome(r, false))
  }

  function Turns(file: seq<byte>, pos: nat, r: Reader, n: nat): Turn
    decreases n
  {
    if n == 0 then GoesOn(pos, r)
    else
      match ReadChunk(file, pos, r)
      case Over(o) => Over(o)
      case GoesOn(p, q) => Turns(file, p, q, n - 1)
  }

  /** What reading a file comes to, None if it goes on forever: in as many turns every place was read twice. */
  function ParseFrom(file: seq<byte>, r: Reader): Option<Outcome> {
    match Turns(file, 0, r, |file| + 1)
    case Over(o) => Some(o)
    case GoesOn(_, _) => None
  }

  /** Once stopped, always stopped. */
  lemma {:induction false} TurnsMore(file: seq<byte>, pos: nat, r: Reader, n: nat, m: nat)
    requires n <= m && Turns(file, pos, r, n).Over?
    ensures Turns(file, pos, r, m) == Turns(file, pos, r, n)
    decreases n
  {
    hide ReadChunk;
    match ReadChunk(file, pos, r)
    case Over(_) =>
    case GoesOn(p, q) => TurnsMore(file, p, q, n - 1, m - 1);
  }

  lemma {:induction false} TurnsThen(file: seq<byte>, pos: nat, r: Reader, n: nat)
    ensures Turns(file, pos, r, n + 1)
         == match Turns(file, pos, r, n)
            case Over(o) => Over(o)
            case GoesOn(p, q) => ReadChunk(file, p, q)
    decreases n
  {
    hide ReadChunk;
    match ReadChunk(file, pos, r)
    case Over(_) =>
    case GoesOn(p, q) =>
      if n > 0 {
        TurnsThen(file, p, q, n - 1);
      }
  }

  function ConsumeAll(r: Reader, cs: seq<Chunk>): Reader
    decreases |cs|
  {
    if cs == [] then r else ConsumeAll(Consume(r, cs[0]), cs[1..])
  }

  // Round trips.

  lemma ChunkParts(pre: seq<byte>, c: Chunk, rest: seq<byte>)
    requires WellFormed(c)
    ensures var file, pos := pre + EncodeChunk(c) + rest, |pre|;
            && |file| == pos + 16 + |c.content| + |rest|
            && file[pos..pos + 8] == c.magic
            && Decode64(file[pos + 8..pos + 16]) == |c.content|
            && file[pos + 16..pos + 16 + |c.content|] == c.content
  {
    var file, pos := pre + EncodeChunk(c) + rest, |pre|;
    assert file == pre + c.magic + Encode64(|c.content|) + c.content + rest;
    assert file[pos + 8..pos + 16] == Encode64(|c.content|);
    Decode64Encoded(|c.content|);
  }

  lemma ChunkRead(pre: seq<byte>, c: Chunk, rest: seq<byte>, r: Reader)
    requires WellFormed(c)
    ensures ReadChunk(pre + EncodeChunk(c) + rest, |pre|, r) == GoesOn(|pre + EncodeChunk(c)|, Consume(r, c))
  {
    hide Decode64, Encode64, HasData, Emit;
    ChunkParts(pre, c, rest);
  }

  lemma {:induction false} RestRead(pre: seq<byte>, cs: seq<Chunk>, r: Reader)
    requires AllWellFormed(cs)
    ensures |EncodeChunks(cs)| >= |cs|
    ensures Turns(pre + EncodeChunks(cs), |pre|, r, |cs| + 1) == Over(Outcome(FinishFile(ConsumeAll(r, cs)), true))
    decreases |cs|
  {
    hide Consume, FinishFile, EncodeChunk;
    if cs == [] {
      assert pre + [] == pre;
    } else {
      var next := pre + EncodeChunk(cs[0]);
      assert pre + EncodeChunks(cs) == next + EncodeChunks(cs[1..]);
      ChunkRead(pre, cs[0], EncodeChunks(cs[1..]), r);
      ChunkParts(pre, cs[0], EncodeChunks(cs[1..]));
      RestRead(next, cs[1..], Consume(r, cs[0]));
    }
  }

  /** Bytes are split into the chunks they were made of. */
  lemma ParseEncoded(r: Reader, cs: seq<Chunk>)
    requires AllWellFormed(cs)
    ensures ParseFrom(EncodeChunks(cs), r) == Some(Outcome(FinishFile(ConsumeAll(r, cs)), true))
  {
    hide Turns, FinishFile, ConsumeAll;
    RestRead([], cs, r);
    assert [] + EncodeChunks(cs) == EncodeChunks(cs);
    TurnsMore(EncodeChunks(cs), 0, r, |cs| + 1, |EncodeChunks(cs)| + 1);
  }

  lemma {:induction false} ConsumeConcat(r: Reader, a: seq<Chunk>, b: seq<Chunk>)
    ensures ConsumeAll(r, a + b) == ConsumeAll(ConsumeAll(r, a), b)
    decreases |a|
  {
    if a == [] {
      assert a + b == b;
    } else {
      assert (a + b)[1..] == a[1..] + b;
      ConsumeConcat(Consume(r, a[0]), a[1..], b);
    }
  }

  predicate Known(c: Chunk) {
    c.magic in [FUNTRACE, CMD_LINE, ENDTRACE, PROCMAPS, THREADID, TRACEBUF, FTRACETX]
  }

  function KnownOnly(cs: seq<Chunk>): (ks: seq<Chunk>)
    ensures AllWellFormed(cs) ==> AllWellFormed(ks)
  {
    if cs == [] then [] else (if Known(cs[0]) then [cs[0]] else []) + KnownOnly(cs[1..])
  }

  lemma {:induction false} ConsumeKnown(r: Reader, cs: seq<Chunk>)
    ensures ConsumeAll(r, cs) == ConsumeAll(r, KnownOnly(cs))
    decreases |cs|
  {
    if cs != [] {
      ConsumeKnown(Consume(r, cs[0]), cs[1..]);
      if Known(cs[0]) {
        assert KnownOnly(cs) == [cs[0]] + KnownOnly(cs[1..]);
        assert KnownOnly(cs)[1..] == KnownOnly(cs[1..]);
      } else {
        assert Consume(r, cs[0]) == r;
        assert KnownOnly(cs) == KnownOnly(cs[1..]);
      }
    }
  }

  /** Chunks of unknown kinds, wherever they are in the file, change nothing. */
  lemma UnknownChunksIgnored(cs: seq<Chunk>, r: Reader)
    requires AllWellFormed(cs)
    ensures ParseFrom(EncodeChunks(cs), r) == ParseFrom(EncodeChunks(KnownOnly(cs)), r)
  {
    ParseEncoded(r, cs);
    ParseEncoded(r, KnownOnly(cs));
    ConsumeKnown(r, cs);
  }

  /** A snapshot whose parts fit the format's fixed sizes. */
  predicate Writable(s: SnapshotData) {
    && |s.maps| < MAX_LENGTH && |s.cmdLine| < MAX_LENGTH && |FtraceText(s.ftrace)| < MAX_LENGTH
    && forall t :: t in s.threads ==> |t.id.name| == 16 && 16 * |t.events| < MAX_LENGTH
  }

  lemma {:induction false} ThreadChunksWellFormed(threads: seq<EventBuffer>)
    requires forall t :: t in threads ==> |t.id.name| == 16 && 16 * |t.events| < MAX_LENGTH
    ensures AllWellFormed(ThreadChunks(threads))
    decreases |threads|
  {
    if threads != [] {
      ThreadChunksWellFormed(threads[..|threads| - 1]);
      DecodeThreadIdEncoded(threads[|threads| - 1].id);
    }
  }

  lemma SnapshotWellFormed(s: SnapshotData)
    requires Writable(s)
    ensures AllWellFormed(SnapshotChunks(s))
  {
    ThreadChunksWellFormed(s.threads);
  }

  /** The threads that have events, these without the all-zero ones and sorted by cycle. */
  function ReadThreads(threads: seq<EventBuffer>): seq<ReadThread> {
    if threads == [] then []
    else
      var t := threads[|threads| - 1];
      ReadThreads(threads[..|threads| - 1])
      + if NonZero(t.events) == [] then [] else [ReadThread(t.id, SortByCycle(NonZero(t.events)))]
  }

  /** The sample a snapshot is read back as, none if it has no events at all. */
  function SampleOf(s: SnapshotData): seq<Sample> {
    if ReadThreads(s.threads) == [] && s.ftrace == [] then []
    else [Sample(s.maps, true, s.freq, s.cmdLine, ReadThreads(s.threads), FtraceText(s.ftrace))]
  }

  lemma ConsumeOne(r: Reader, a: Chunk)
    ensures ConsumeAll(r, [a]) == Consume(r, a)
  {
    assert [a][1..] == [];
  }

  lemma ConsumeTwo(r: Reader, a: Chunk, b: Chunk)
    ensures ConsumeAll(r, [a, b]) == Consume(Consume(r, a), b)
  {
    assert [a, b][1..] == [b];
    ConsumeOne(Consume(r, a), b);
  }

  lemma ConsumeThread(r: Reader, t: EventBuffer)
    requires |t.id.name| == 16
    ensures ConsumeAll(r, [Chunk(THREADID, EncodeThreadId(t.id)), Chunk(TRACEBUF, EncodeEntries(t.events))])
         == r.(id := t.id,
               threads := r.threads + if NonZero(t.events) == [] then []
                                      else [ReadThread(t.id, SortByCycle(NonZero(t.events)))])
  {
    hide EncodeThreadId, EncodeEntries, SortByCycle, NonZero, DecodeThreadId, DecodeEntries;
    DecodeThreadIdEncoded(t.id);
    DecodeEntriesEncoded(t.events);
    ConsumeTwo(r, Chunk(THREADID, EncodeThreadId(t.id)), Chunk(TRACEBUF, EncodeEntries(t.events)));
  }

  function LastId(r: Reader, threads: seq<EventBuffer>): ThreadId {
    if threads == [] then r.id else threads[|threads| - 1].id
  }

  lemma {:induction false} ConsumeThreads(r: Reader, threads: seq<EventBuffer>)
    requires forall t :: t in threads ==> |t.id.name| == 16
    ensures ConsumeAll(r, ThreadChunks(threads))
         == r.(id := LastId(r, threads), threads := r.threads + ReadThreads(threads))
    decreases |threads|
  {
    if threads != [] {
      var before, t := threads[..|threads| - 1], threads[|threads| - 1];
      ConsumeThreads(r, before);
      ConsumeConcat(r, ThreadChunks(before),
                    [Chunk(THREADID, EncodeThreadId(t.id)), Chunk(TRACEBUF, EncodeEntries(t.events))]);
      ConsumeThread(ConsumeAll(r, ThreadChunks(before)), t);
    } else {
      assert r.threads + [] == r.threads;
    }
  }

  lemma ConsumeHeader(r: Reader, s: SnapshotData)
    ensures ConsumeAll(r, [Chunk(PROCMAPS, s.maps), Chunk(FUNTRACE, Encode64(s.freq)), Chunk(CMD_LINE, s.cmdLine)])
         == r.(maps := s.maps, remapped := true, freq := s.freq, cmdLine := s.cmdLine)
  {
    var a, b, c := Chunk(PROCMAPS, s.maps), Chunk(FUNTRACE, Encode64(s.freq)), Chunk(CMD_LINE, s.cmdLine);
    Decode64Encoded(s.freq);
    assert [a, b, c][1..] == [b, c];
    ConsumeTwo(Consume(r, a), b, c);
  }

  lemma FtraceTextEmpty(lines: seq<seq<byte>>)
    ensures FtraceText(lines) == [] <==> lines == []
  {
    if lines != [] {
      assert |FtraceText(lines)| >= 1;
    }
  }

  lemma ConsumeFtrace(r: Reader, s: SnapshotData)
    requires r.ftrace == []
    ensures ConsumeAll(r, FtraceChunks(s.ftrace)) == r.(ftrace := FtraceText(s.ftrace))
  {
    FtraceTextEmpty(s.ftrace);
    if s.ftrace != [] {
      ConsumeOne(r, Chunk(FTRACETX, FtraceText(s.ftrace)));
    }
  }

  /** What is gathered from a snapshot until its end is read. */
  function Gathered(r: Reader, s: SnapshotData): Reader {
    r.(maps := s.maps, remapped := true, freq := s.freq, cmdLine := s.cmdLine, id := LastId(r, s.threads),
       threads := r.threads + ReadThreads(s.threads), ftrace := FtraceText(s.ftrace))
  }

  /** All but the chunk that closes the snapshot. */
  function SnapshotFront(s: SnapshotData): seq<Chunk> {
    [Chunk(PROCMAPS, s.maps), Chunk(FUNTRACE, Encode64(s.freq)), Chunk(CMD_LINE, s.cmdLine)]
    + ThreadChunks(s.threads)
    + FtraceChunks(s.ftrace)
  }

  lemma FrontGathered(r: Reader, s: SnapshotData)
    requires Writable(s) && r.ftrace == []
    ensures ConsumeAll(r, SnapshotFront(s)) == Gathered(r, s)
  {
    hide ConsumeAll, ThreadChunks, ReadThreads, FtraceText, FtraceChunks, HasData, Emit;
    var header := [Chunk(PROCMAPS, s.maps), Chunk(FUNTRACE, Encode64(s.freq)), Chunk(CMD_LINE, s.cmdLine)];
    var r1 := r.(maps := s.maps, remapped := true, freq := s.freq, cmdLine := s.cmdLine);
    assert SnapshotFront(s) == header + (ThreadChunks(s.threads) + FtraceChunks(s.ftrace));
    ConsumeConcat(r, header, ThreadChunks(s.threads) + FtraceChunks(s.ftrace));
    ConsumeHeader(r, s);
    ConsumeConcat(r1, ThreadChunks(s.threads), FtraceChunks(s.ftrace));
    ConsumeThreads(r1, s.threads);
    ConsumeFtrace(r1.(id := LastId(r, s.threads), threads := r.threads + ReadThreads(s.threads)), s);
  }

  lemma SnapshotGathered(r: Reader, s: SnapshotData)
    requires Writable(s) && r.ftrace == []
    ensures ConsumeAll(r, SnapshotChunks(s)) == var q := Gathered(r, s); if HasData(q) then Emit(q) else q
  {
    hide ConsumeAll, ThreadChunks, FtraceChunks, HasData, Emit;
    assert SnapshotChunks(s) == SnapshotFront(s) + [Chunk(ENDTRACE, [])];
    ConsumeConcat(r, SnapshotFront(s), [Chunk(ENDTRACE, [])]);
    FrontGathered(r, s);
    ConsumeOne(Gathered(r, s), Chunk(ENDTRACE, []));
  }

  /** Reading the chunks of a snapshot yields its sample and leaves nothing behind. */
  lemma SnapshotConsumed(r: Reader, s: SnapshotData)
    requires Writable(s) && !HasData(r)
    ensures ConsumeAll(r, SnapshotChunks(s))
         == r.(maps := s.maps, remapped := SampleOf(s) == [], freq := s.freq, cmdLine := s.cmdLine,
               id := LastId(r, s.threads), samples := r.samples + SampleOf(s))
  {
    hide ConsumeAll, SnapshotChunks, ReadThreads, FtraceText, LastId, Writable;
    SnapshotGathered(r, s);
    FtraceTextEmpty(s.ftrace);
    assert r.threads + ReadThreads(s.threads) == ReadThreads(s.threads);
    assert r.samples + [] == r.samples;
  }

  function FileChunks(snapshots: seq<SnapshotData>): seq<Chunk> {
    if snapshots == [] then []
    else FileChunks(snapshots[..|snapshots| - 1]) + SnapshotChunks(snapshots[|snapshots| - 1])
  }

  function SamplesOf(snapshots: seq<SnapshotData>): seq<Sample> {
    if snapshots == [] then []
    else SamplesOf(snapshots[..|snapshots| - 1]) + SampleOf(snapshots[|snapshots| - 1])
  }

  lemma {:induction false} FileConsumed(snapshots: seq<SnapshotData>)
    requires forall s :: s in snapshots ==> Writable(s)
    ensures AllWellFormed(FileChunks(snapshots))
    ensures var r := ConsumeAll(START, FileChunks(snapshots));
            !HasData(r) && r.samples == SamplesOf(snapshots)
    decreases |snapshots|
  {
    if snapshots != [] {
      var before, s := snapshots[..|snapshots| - 1], snapshots[|snapshots| - 1];
      FileConsumed(before);
      SnapshotWellFormed(s);
      ConsumeConcat(START, FileChunks(before), SnapshotChunks(s));
      SnapshotConsumed(ConsumeAll(START, FileChunks(before)), s);
    }
  }

  /** Parsing a file of snapshots recovers the non-empty ones, in order, and ends without an error. */
  lemma FileRoundTrip(snapshots: seq<SnapshotData>)
    requires forall s :: s in snapshots ==> Writable(s)
    ensures AllWellFormed(FileChunks(snapshots))
    ensures var o := ParseFrom(EncodeChunks(FileChunks(snapshots)), START);
            o.Some? && o.value.ok && o.value.reader.samples == SamplesOf(snapshots)
  {
    FileConsumed(snapshots);
    ParseEncoded(START, FileChunks(snapshots));
  }

  /** A file of ordinary length can be sought from its beginning up to the greatest signed 64-bit number. */
  lemma SeekLimits(file: seq<byte>, pos: nat, length: u64)
    requires |file| < 0x7fff_ffff_ffff_ffff
    ensures !Seekable(file, -1) && Seekable(file, 0)
    ensures Seekable(file, 0x7fff_ffff_ffff_ffff) && !Seekable(file, 0x7fff_ffff_ffff_ffff + 1)
    ensures Target(pos, length) - (pos + 16) == if length / 0x8000_0000_0000_0000 == 0 then length else length - TWO_64
  {
  }

  // The text of the ftrace lines.

  /** The lines of a text: what ends in a newline, and what is left after the last one. */
  function LinesOf(text: seq<byte>, line: seq<byte>): seq<seq<byte>>
    decreases |text|
  {
    if text == [] then if line == [] then [] else [line]
    else if text[0] == 10 then [line] + LinesOf(text[1..], [])
    else LinesOf(text[1..], line + [text[0]])
  }

  lemma {:induction false} LineRead(begun: seq<byte>, line: seq<byte>, rest: seq<byte>)
    requires 10 !in line
    ensures LinesOf(line + [10] + rest, begun) == [begun + line] + LinesOf(rest, [])
    decreases |line|
  {
    var text := line + [10] + rest;
    if line == [] {
      assert text[1..] == rest && begun + line == begun;
    } else {
      assert text[1..] == line[1..] + [10] + rest;
      LineRead(begun + [line[0]], line[1..], rest);
      assert begun + [line[0]] + line[1..] == begun + line;
    }
  }

  lemma {:induction false} LinesThen(lines: seq<seq<byte>>, rest: seq<byte>)
    requires forall l :: l in lines ==> 10 !in l
    ensures LinesOf(FtraceText(lines) + rest, []) == lines + LinesOf(rest, [])
    decreases |lines|
  {
    if lines == [] {
      assert FtraceText([]) + rest == rest;
    } else {
      var front, last := lines[..|lines| - 1], lines[|lines| - 1];
      assert FtraceText(lines) + rest == FtraceText(front) + (last + [10] + rest);
      LinesThen(front, last + [10] + rest);
      LineRead([], last, rest);
      assert [] + last == last && lines == front + [last];
    }
  }

  /** Lines without newlines are recovered from their text. */
  lemma TextLines(lines: seq<seq<byte>>)
    requires forall l :: l in lines ==> 10 !in l
    ensures LinesOf(FtraceText(lines), []) == lines
  {
    LinesThen(lines, []);
    assert FtraceText(lines) + [] == FtraceText(lines) && lines + [] == lines;
  }

  /** The kinds of chunks, spelled out. */
  function Ascii(s: string): seq<byte>
    requires forall i :: 0 <= i < |s| ==> s[i] as int < 128
  {
    seq(|s|, i requires 0 <= i < |s| => s[i] as int)
  }

  lemma Magics()
    ensures PROCMAPS == Ascii("PROCMAPS") && FUNTRACE == Ascii("FUNTRACE") && CMD_LINE == Ascii("CMD LINE")
    ensures THREADID == Ascii("THREADID") && TRACEBUF == Ascii("TRACEBUF") && FTRACETX == Ascii("FTRACETX")
    ensures ENDTRACE == Ascii("ENDTRACE")
  {
  }

  // What any file at all is read as.

  ghost predicate NoneEmpty(threads: seq<ReadThread>) { forall i :: 0 <= i < |threads| ==> threads[i].trace != [] }

  ghost predicate TracesSorted(threads: seq<ReadThread>) {
    forall i :: 0 <= i < |threads| ==> Sorted(threads[i].trace)
  }

  /** A sample that is not remapped has the maps of the one before. */
  ghost predicate Coherent(samples: seq<Sample>) {
    && (forall k :: 0 <= k < |samples| ==> NoneEmpty(samples[k].threads) && TracesSorted(samples[k].threads))
    && forall k :: 0 <= k < |samples| && !samples[k].remapped ==> k > 0 && samples[k].maps == samples[k - 1].maps
  }

  ghost predicate ReaderInv(r: Reader) {
    && Coherent(r.samples) && NoneEmpty(r.threads) && TracesSorted(r.threads)
    && (!r.remapped ==> r.samples != [] && r.maps == r.samples[|r.samples| - 1].maps)
  }

  lemma EmitKeeps(r: Reader)
    requires ReaderInv(r)
    ensures ReaderInv(Emit(r))
  {
  }

  lemma BufferKeeps(r: Reader, content: seq<byte>)
    requires ReaderInv(r)
    ensures ReaderInv(ConsumeBuffer(r, content))
  {
    hide SortByCycle, NonZero, DecodeEntries, Sorted;
    if |content| % 16 == 0 {
      var entries := NonZero(DecodeEntries(content));
      SortSorts(entries);
      assert |multiset(SortByCycle(entries))| == |multiset(entries)|;
    }
  }

  lemma ConsumeKeeps(r: Reader, c: Chunk)
    requires ReaderInv(r)
    ensures ReaderInv(Consume(r, c))
  {
    hide ConsumeBuffer, Emit;
    EmitKeeps(r);
    BufferKeeps(r, c.content);
  }

  ghost predicate TurnInv(t: Turn) {
    match t
    case Over(o) => Coherent(o.reader.samples)
    case GoesOn(_, r) => ReaderInv(r)
  }

  /** Whatever file is read, and also while reading goes on, threads without events are left out, events are
  sorted, and maps stay in force from sample to sample until they are replaced. */
  lemma {:induction false} ReadCoherent(file: seq<byte>, pos: nat, r: Reader, n: nat)
    requires ReaderInv(r)
    ensures TurnInv(Turns(file, pos, r, n))
    decreases n
  {
    hide ReaderInv, ReadChunk;
    if n == 0 {
      return;
    }
    ReadKeeps(file, pos, r);
    match ReadChunk(file, pos, r)
    case Over(_) =>
    case GoesOn(p, q) => ReadCoherent(file, p, q, n - 1);
  }

  lemma FileCoherent(file: seq<byte>)
    ensures ParseFrom(file, START).Some? ==> Coherent(ParseFrom(file, START).value.reader.samples)
  {
    ReadCoherent(file, 0, START, |file| + 1);
  }

  lemma ReadKeeps(file: seq<byte>, pos: nat, r: Reader)
    requires ReaderInv(r)
    ensures TurnInv(ReadChunk(file, pos, r))
  {
    hide Consume, Coherent, Emit, Skips, Seekable;
    EmitKeeps(r);
    if |file| >= pos + 16 {
      var length := Decode64(file[pos + 8..pos + 16]);
      if pos + 16 + length <= |file| {
        ConsumeKeeps(r, Chunk(file[pos..pos + 8], file[pos + 16..pos + 16 + length]));
      }
    }
  }

  /** In a file of snapshots each sample has its own maps, and threads that are sorted and not empty. */
  lemma {:induction false} SnapshotsFresh(snapshots: seq<SnapshotData>)
    ensures forall s :: s in SamplesOf(snapshots) ==> s.remapped && NoneEmpty(s.threads) && TracesSorted(s.threads)
    ensures Coherent(SamplesOf(snapshots))
    decreases |snapshots|
  {
    hide NoneEmpty, TracesSorted, ReadThreads;
    if snapshots != [] {
      SnapshotsFresh(snapshots[..|snapshots| - 1]);
      ReadThreadsSorted(snapshots[|snapshots| - 1].threads);
    }
  }

  lemma {:induction false} ReadThreadsSorted(threads: seq<EventBuffer>)
    ensures NoneEmpty(ReadThreads(threads)) && TracesSorted(ReadThreads(threads))
    decreases |threads|
  {
    hide SortByCycle, NonZero, Sorted;
    if threads != [] {
      ReadThreadsSorted(threads[..|threads| - 1]);
      var events := NonZero(threads[|threads| - 1].events);
      SortSorts(events);
      assert |multiset(SortByCycle(events))| == |multiset(events)|;
    }
  }

  // The sort.

  ghost predicate NoneAfter(s: seq<Entry>, cycle: u64) { forall i :: 0 <= i < |s| ==> s[i].cycle <= cycle }

  lemma {:induction false} InsertBounded(s: seq<Entry>, e: Entry, cycle: u64)
    requires NoneAfter(s, cycle) && e.cycle <= cycle
    ensures NoneAfter(Insert(s, e), cycle)
    decreases |s|
  {
    if s != [] && s[|s| - 1].cycle > e.cycle {
      InsertBounded(s[..|s| - 1], e, cycle);
    }
  }

  lemma {:induction false} InsertSorted(s: seq<Entry>, e: Entry)
    requires Sorted(s)
    ensures Sorted(Insert(s, e))
    decreases |s|
  {
    if s != [] && s[|s| - 1].cycle > e.cycle {
      InsertSorted(s[..|s| - 1], e);
      InsertBounded(s[..|s| - 1], e, s[|s| - 1].cycle);
    }
  }

  lemma {:induction false} InsertMembers(s: seq<Entry>, e: Entry)
    ensures multiset(Insert(s, e)) == multiset(s) + multiset{e}
    decreases |s|
  {
    if s != [] && s[|s| - 1].cycle > e.cycle {
      InsertMembers(s[..|s| - 1], e);
      assert s == s[..|s| - 1] + [s[|s| - 1]];
    }
  }

  lemma {:induction false} SortSorts(es: seq<Entry>)
    ensures Sorted(SortByCycle(es)) && multiset(SortByCycle(es)) == multiset(es)
    decreases |es|
  {
    if es != [] {
      SortSorts(es[..|es| - 1]);
      InsertSorted(SortByCycle(es[..|es| - 1]), es[|es| - 1]);
      InsertMembers(SortByCycle(es[..|es| - 1]), es[|es| - 1]);
      assert es == es[..|es| - 1] + [es[|es| - 1]];
    }
  }

  function AtCycle(es: seq<Entry>, cycle: u64): seq<Entry> {
    if es == [] then []
    else AtCycle(es[..|es| - 1], cycle) + if es[|es| - 1].cycle == cycle then [es[|es| - 1]] else []
  }

  lemma AtCycleMore(es: seq<Entry>, e: Entry, cycle: u64)
    ensures AtCycle(es + [e], cycle) == AtCycle(es, cycle) + if e.cycle == cycle then [e] else []
  {
    assert (es + [e])[..|es|] == es;
  }

  lemma {:induction false} InsertStable(s: seq<Entry>, e: Entry, cycle: u64)
    ensures AtCycle(Insert(s, e), cycle) == AtCycle(s, cycle) + if e.cycle == cycle then [e] else []
    decreases |s|
  {
    if s == [] || s[|s| - 1].cycle <= e.cycle {
      AtCycleMore(s, e, cycle);
    } else {
      var last, rest := s[|s| - 1], s[..|s| - 1];
      InsertStable(rest, e, cycle);
      AtCycleMore(Insert(rest, e), last, cycle);
    }
  }

  /** Events of one cycle keep their order. */
  lemma {:induction false} SortStable(es: seq<Entry>, cycle: u64)
    ensures AtCycle(SortByCycle(es), cycle) == AtCycle(es, cycle)
    decreases |es|
  {
    if es != [] {
      SortStable(es[..|es| - 1], cycle);
      InsertStable(SortByCycle(es[..|es| - 1]), es[|es| - 1], cycle);
    }
  }

  /** Events already in order, with nonzero cycles, are read back as they are. */
  lemma {:induction false} SortedUnchanged(es: seq<Entry>)
    requires Sorted(es)
    ensures SortByCycle(es) == es
    decreases |es|
  {
    if es != [] {
      var m := |es| - 1;
      SortedUnchanged(es[..m]);
      assert m > 0 ==> es[..m][m - 1] == es[m - 1];
      assert Insert(es[..m], es[m]) == es[..m] + [es[m]];
      assert es == es[..m] + [es[m]];
    }
  }

  /** Only entries that are zero altogether are left out. */
  lemma {:induction false} NonZeroExactly(es: seq<Entry>)
    ensures forall e :: e in NonZero(es) <==> e in es && (e.address != 0 || e.cycle != 0)
    ensures (forall e :: e in es ==> e.address != 0 || e.cycle != 0) ==> NonZero(es) == es
    decreases |es|
  {
    if es != [] {
      NonZeroExactly(es[..|es| - 1]);
      assert es == es[..|es| - 1] + [es[|es| - 1]];
    }
  }

  lemma {:induction false} NonZeroUnchanged(es: seq<Entry>)
    requires forall i :: 0 <= i < |es| ==> es[i].cycle > 0
    ensures NonZero(es) == es
    decreases |es|
  {
    if es != [] {
      NonZeroUnchanged(es[..|es| - 1]);
      assert es == es[..|es| - 1] + [es[|es| - 1]];
    }
  }

  // The imperative writer and reader.

  lemma {:induction false} EncodeMore(a: seq<Chunk>, b: seq<Chunk>)
    requires AllWellFormed(a) && AllWellFormed(b)
    ensures AllWellFormed(a + b) && EncodeChunks(a + b) == EncodeChunks(a) + EncodeChunks(b)
    decreases |a|
  {
    if a == [] {
      assert a + b == b;
    } else {
      assert (a + b)[1..] == a[1..] + b;
      EncodeMore(a[1..], b);
    }
  }

  lemma EncodeOne(before: seq<Chunk>, c: Chunk)
    requires AllWellFormed(before) && WellFormed(c)
    ensures AllWellFormed(before + [c]) && EncodeChunks(before + [c]) == EncodeChunks(before) + EncodeChunk(c)
  {
    EncodeMore(before, [c]);
    assert EncodeChunks([c]) == EncodeChunk(c) + [];
  }

  class TraceWriter {
    var file: seq<byte>

    constructor ()
      ensures file == []
    {
      file := [];
    }

    ghost predicate Has(chunks: seq<Chunk>)
      reads this
    {
      AllWellFormed(chunks) && file == EncodeChunks(chunks)
    }

    method WriteChunk(magic: seq<byte>, data: seq<byte>, ghost before: seq<Chunk>)
      requires Has(before) && WellFormed(Chunk(magic, data))
      modifies this
      ensures Has(before + [Chunk(magic, data)])
    {
      file := file + magic;
      file := file + Encode64(|data|);
      file := file + data;
      EncodeOne(before, Chunk(magic, data));
      assert file == old(file) + EncodeChunk(Chunk(magic, data));
    }

    method WriteTracebufs(threads: seq<EventBuffer>, ghost before: seq<Chunk>)
      requires Has(before)
      requires forall t :: t in threads ==> |t.id.name| == 16 && 16 * |t.events| < MAX_LENGTH
      modifies this
      ensures Has(before + ThreadChunks(threads))
    {
      assert before + [] == before;
      for i := 0 to |threads|
        invariant Has(before + ThreadChunks(threads[..i]))
      {
        ghost var written := before + ThreadChunks(threads[..i]);
        DecodeThreadIdEncoded(threads[i].id);
        WriteChunk(THREADID, EncodeThreadId(threads[i].id), written);
        WriteChunk(TRACEBUF, EncodeEntries(threads[i].events),
                   written + [Chunk(THREADID, EncodeThreadId(threads[i].id))]);
        ThreadChunksMore(before, threads, i);
      }
      assert threads[..|threads|] == threads;
    }

    /** The text is written line by line, after its length. */
    method WriteFtrace(lines: seq<seq<byte>>, ghost before: seq<Chunk>)
      requires Has(before) && |FtraceText(lines)| < MAX_LENGTH
      modifies this
      ensures Has(before + FtraceChunks(lines))
    {
      hide Encode64;
      if lines == [] {
        assert before + [] == before;
        return;
      }
      var size := 0;
      for i := 0 to |lines|
        invariant file == old(file) && size == |FtraceText(lines[..i])|
      {
        assert lines[..i + 1][..i] == lines[..i];
        size := size + |lines[i]| + 1;
      }
      assert lines[..|lines|] == lines;
      file := file + FTRACETX;
      file := file + Encode64(size);
      WriteLines(lines);
      EncodeOne(before, Chunk(FTRACETX, FtraceText(lines)));
      assert file == old(file) + EncodeChunk(Chunk(FTRACETX, FtraceText(lines)));
    }

    method WriteLines(lines: seq<seq<byte>>)
      modifies this
      ensures file == old(file) + FtraceText(lines)
    {
      for i := 0 to |lines|
        invariant file == old(file) + FtraceText(lines[..i])
      {
        assert lines[..i + 1][..i] == lines[..i];
        file := file + lines[i];
        file := file + [10];
      }
      assert lines[..|lines|] == lines;
    }

    /** Both ways of writing a snapshot produce the same chunks in the same order. */
    method WriteSnapshot(s: SnapshotData, ghost before: seq<Chunk>)
      requires Has(before) && Writable(s)
      modifies this
      ensures Has(before + SnapshotChunks(s))
    {
      ghost var a, b, c := Chunk(PROCMAPS, s.maps), Chunk(FUNTRACE, Encode64(s.freq)), Chunk(CMD_LINE, s.cmdLine);
      WriteChunk(PROCMAPS, s.maps, before);
      WriteChunk(FUNTRACE, Encode64(s.freq), before + [a]);
      WriteChunk(CMD_LINE, s.cmdLine, before + [a] + [b]);
      ghost var written := before + [a] + [b] + [c];
      WriteTracebufs(s.threads, written);
      WriteFtrace(s.ftrace, written + ThreadChunks(s.threads));
      WriteChunk(ENDTRACE, [], written + ThreadChunks(s.threads) + FtraceChunks(s.ftrace));
      assert before + SnapshotChunks(s)
          == written + ThreadChunks(s.threads) + FtraceChunks(s.ftrace) + [Chunk(ENDTRACE, [])];
    }
  }

  lemma ThreadChunksMore(before: seq<Chunk>, threads: seq<EventBuffer>, i: nat)
    requires i < |threads|
    ensures before + ThreadChunks(threads[..i + 1])
         == before + ThreadChunks(threads[..i])
            + [Chunk(THREADID, EncodeThreadId(threads[i].id))] + [Chunk(TRACEBUF, EncodeEntries(threads[i].events))]
  {
    assert threads[..i + 1][..i] == threads[..i];
  }

  /** The loop of parse_chunks, on a file on which it ends. */
  method ParseChunks(file: seq<byte>) returns (reader: Reader, ok: bool)
    requires ParseFrom(file, START).Some?
    ensures ParseFrom(file, START) == Some(Outcome(reader, ok))
  {
    hide Consume, FinishFile, Skips, Decode64, Turns, Seekable;
    reader := START;
    var pos: int := 0;
    ghost var turn := 0;
    StartTurns(file);
    while |file| - pos >= 8
      invariant 0 <= pos && turn <= |file| && Turns(file, 0, START, turn) == GoesOn(pos, reader)
      decreases |file| - turn
    {
      TurnsThen(file, 0, START, turn);
      StoppedBy(file, START, turn + 1);
      var magic := file[pos..pos + 8];
      if |file| - pos < 16 {
        return reader, false;
      }
      var length := Decode64(file[pos + 8..pos + 16]);
      if Skips(magic, length) {
        if !Seekable(file, Target(pos, length)) {
          return reader, false;
        }
        pos := Target(pos, length);
      } else {
        if length > |file| - pos - 16 {
          return reader, false;
        }
        reader := Consume(reader, Chunk(magic, file[pos + 16..pos + 16 + length]));
        pos := pos + 16 + length;
      }
      turn := turn + 1;
    }
    TurnsThen(file, 0, START, turn);
    StoppedBy(file, START, turn + 1);
    reader, ok := FinishFile(reader), true;
  }

  lemma StartTurns(file: seq<byte>)
    ensures Turns(file, 0, START, 0) == GoesOn(0, START)
  {
  }

  /** Reading that has stopped is over, and reading that ends goes on for so many turns only. */
  lemma StoppedBy(file: seq<byte>, r: Reader, n: nat)
    requires ParseFrom(file, r).Some? && n <= |file| + 1
    ensures match Turns(file, 0, r, n)
            case Over(o) => ParseFrom(file, r) == Some(o)
            case GoesOn(_, _) => n <= |file|
  {
    hide ReadChunk;
    if Turns(file, 0, r, n).Over? {
      TurnsMore(file, 0, r, n, |file| + 1);
    }
  }
}
