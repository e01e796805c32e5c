/** Files that end too early, as a process that dies while writing leaves them. */
module CutFiles {
  import opened Events
  import opened Search
  import opened Bytes
  import opened TraceFile

  /** After whole chunks comes one more turn, on what follows them. */
  lemma {:induction false} ThenOneTurn(pre: seq<byte>, cs: seq<Chunk>, tail: seq<byte>, r: Reader)
    requires AllWellFormed(cs)
    ensures |EncodeChunks(cs)| >= |cs|
    ensures var file := pre + EncodeChunks(cs) + tail;
            Turns(file, |pre|, r, |cs| + 1) == ReadChunk(file, |pre + EncodeChunks(cs)|, ConsumeAll(r, cs))
    decreases |cs|
  {
    hide Consume, EncodeChunk, ReadChunk;
    var file := pre + EncodeChunks(cs) + tail;
    if cs == [] {
      assert pre + [] == pre;
      TurnsThen(file, |pre|, r, 0);
    } else {
      var next, rest := pre + EncodeChunk(cs[0]), EncodeChunks(cs[1..]);
      assert file == next + rest + tail && pre + EncodeChunks(cs) == next + rest;
      assert file == pre + EncodeChunk(cs[0]) + (rest + tail);
      ChunkRead(pre, cs[0], rest + tail, r);
      ChunkParts(pre, cs[0], rest + tail);
      ThenOneTurn(next, cs[1..], tail, Consume(r, cs[0]));
    }
  }

  lemma ReadTo(cs: seq<Chunk>, tail: seq<byte>, o: Outcome)
    requires AllWellFormed(cs)
    requires ReadChunk(EncodeChunks(cs) + tail, |EncodeChunks(cs)|, ConsumeAll(START, cs)) == Over(o)
    ensures ParseFrom(EncodeChunks(cs) + tail, START) == Some(o)
  {
    hide Turns, ReadChunk, ConsumeAll, EncodeChunks;
    var file := EncodeChunks(cs) + tail;
    ThenOneTurn([], cs, tail, START);
    assert [] + EncodeChunks(cs) + tail == file && [] + EncodeChunks(cs) == EncodeChunks(cs);
    TurnsMore(file, 0, START, |cs| + 1, |file| + 1);
  }

  // Cut between chunks.

  /** A snapshot's chunks but the last. */
  function Unclosed(s: SnapshotData): seq<Chunk> { SnapshotChunks(s)[..|SnapshotChunks(s)| - 1] }

  lemma UnclosedGathered(r: Reader, s: SnapshotData)
    requires Writable(s) && r.ftrace == []
    ensures AllWellFormed(Unclosed(s)) && ConsumeAll(r, Unclosed(s)) == Gathered(r, s)
  {
    hide ConsumeAll, ThreadChunks, FtraceChunks;
    SnapshotWellFormed(s);
    assert Unclosed(s) == SnapshotFront(s);
    FrontGathered(r, s);
  }

  /** What was gathered when the file ends is one more sample, though nothing closed it. */
  lemma UnclosedRead(snapshots: seq<SnapshotData>, s: SnapshotData, tail: seq<byte>)
    requires (forall t :: t in snapshots ==> Writable(t)) && Writable(s) && |tail| < 8
    ensures AllWellFormed(FileChunks(snapshots) + Unclosed(s))
    ensures var o := ParseFrom(EncodeChunks(FileChunks(snapshots) + Unclosed(s)) + tail, START);
            o.Some? && o.value.ok && o.value.reader.samples == SamplesOf(snapshots + [s])
  {
    hide ConsumeAll, FileChunks, EncodeChunks, Writable, ReadThreads, FtraceText, Unclosed;
    var cs := FileChunks(snapshots) + Unclosed(s);
    FileConsumed(snapshots);
    ConsumeConcat(START, FileChunks(snapshots), Unclosed(s));
    var r := ConsumeAll(START, FileChunks(snapshots));
    UnclosedGathered(r, s);
    FtraceTextEmpty(s.ftrace);
    assert r.threads + ReadThreads(s.threads) == ReadThreads(s.threads);
    assert r.samples + [] == r.samples;
    assert (snapshots + [s])[..|snapshots|] == snapshots;
    ReadTo(cs, tail, Outcome(FinishFile(Gathered(r, s)), true));
  }

  // Cut within a chunk.

  /** A chunk of which at least the magic is there, but not all of it, is an error if it would have been read, and
  always if its length is not there either; what came before it is not lost. */
  lemma CutChunk(cs: seq<Chunk>, c: Chunk, k: nat)
    requires AllWellFormed(cs) && WellFormed(c) && 8 <= k < |EncodeChunk(c)|
    requires k >= 16 ==> !Skips(c.magic, |c.content|)
    ensures ParseFrom(EncodeChunks(cs) + EncodeChunk(c)[..k], START) == Some(Outcome(ConsumeAll(START, cs), false))
  {
    hide ConsumeAll, EncodeChunks, Skips, Seekable, Decode64, Encode64;
    var before, tail := EncodeChunks(cs), EncodeChunk(c)[..k];
    var file, pos := before + tail, |before|;
    CutParts(c, k);
    assert file[pos..pos + 8] == tail[..8];
    if k >= 16 {
      assert file[pos + 8..pos + 16] == tail[8..16];
    }
    ReadTo(cs, tail, Outcome(ConsumeAll(START, cs), false));
  }

  lemma CutParts(c: Chunk, k: nat)
    requires WellFormed(c) && 8 <= k < |EncodeChunk(c)|
    ensures |EncodeChunk(c)| == 16 + |c.content| && EncodeChunk(c)[..k][..8] == c.magic
    ensures k >= 16 ==> Decode64(EncodeChunk(c)[..k][8..16]) == |c.content|
  {
    Decode64Encoded(|c.content|);
    var all := EncodeChunk(c);
    assert all[..8] == c.magic && all[8..16] == Encode64(|c.content|);
    if k >= 16 {
      assert all[..k][8..16] == all[8..16];
    }
  }

  /** Chunks without an end leave the samples there are. */
  lemma {:induction false} NoneClosed(r: Reader, cs: seq<Chunk>)
    requires forall c :: c in cs ==> c.magic != ENDTRACE
    ensures ConsumeAll(r, cs).samples == r.samples
    decreases |cs|
  {
    hide NonZero, SortByCycle, DecodeEntries, DecodeThreadId, Decode64;
    if cs != [] {
      NoneClosed(Consume(r, cs[0]), cs[1..]);
    }
  }

  lemma {:induction false} ThreadsUnclosed(threads: seq<EventBuffer>)
    requires forall t :: t in threads ==> |t.id.name| == 16
    ensures forall c :: c in ThreadChunks(threads) ==> c.magic != ENDTRACE && !Skips(c.magic, |c.content|)
    decreases |threads|
  {
    hide EncodeThreadId, EncodeEntries, Skips;
    if threads != [] {
      ThreadsUnclosed(threads[..|threads| - 1]);
      KindsRead(threads[|threads| - 1]);
    }
  }

  lemma KindsRead(t: EventBuffer)
    requires |t.id.name| == 16
    ensures !Skips(TRACEBUF, |EncodeEntries(t.events)|) && !Skips(THREADID, |EncodeThreadId(t.id)|)
  {
    DecodeEntriesEncoded(t.events);
    DecodeThreadIdEncoded(t.id);
  }

  lemma UnclosedKinds(s: SnapshotData)
    requires Writable(s)
    ensures forall c :: c in Unclosed(s) ==> c.magic != ENDTRACE && !Skips(c.magic, |c.content|)
  {
    hide ThreadChunks;
    ThreadsUnclosed(s.threads);
    assert Unclosed(s) == SnapshotFront(s);
  }

  /** A snapshot cut within any of its chunks is an error, and leaves the samples before it. */
  lemma CutSnapshot(snapshots: seq<SnapshotData>, s: SnapshotData, i: nat, k: nat)
    requires (forall t :: t in snapshots ==> Writable(t)) && Writable(s)
    requires i < |SnapshotChunks(s)| && WellFormed(SnapshotChunks(s)[i]) && 8 <= k < |EncodeChunk(SnapshotChunks(s)[i])|
    ensures AllWellFormed(FileChunks(snapshots) + SnapshotChunks(s)[..i])
    ensures var o := ParseFrom(EncodeChunks(FileChunks(snapshots) + SnapshotChunks(s)[..i])
                               + EncodeChunk(SnapshotChunks(s)[i])[..k], START);
            o.Some? && !o.value.ok && o.value.reader.samples == SamplesOf(snapshots)
  {
    hide ConsumeAll, FileChunks, EncodeChunks, Writable, Skips, Consume, SnapshotChunks, EncodeChunk;
    var part, c := SnapshotChunks(s)[..i], SnapshotChunks(s)[i];
    FileConsumed(snapshots);
    SnapshotWellFormed(s);
    UnclosedKinds(s);
    LastCloses(s);
    ConsumeConcat(START, FileChunks(snapshots), part);
    forall d | d in part ensures d.magic != ENDTRACE {
      var j :| 0 <= j < i && part[j] == d;
      assert d == Unclosed(s)[j];
    }
    NoneClosed(ConsumeAll(START, FileChunks(snapshots)), part);
    if k >= 16 {
      EndIsShort(c);
      assert i < |Unclosed(s)|;
      assert c == Unclosed(s)[i];
    }
    CutChunk(FileChunks(snapshots) + part, c, k);
  }

  lemma LastCloses(s: SnapshotData)
    ensures SnapshotChunks(s) == Unclosed(s) + [Chunk(ENDTRACE, [])]
  {
  }

  lemma EndIsShort(c: Chunk)
    requires WellFormed(c)
    ensures |EncodeChunk(c)| == 16 + |c.content|
  {
    Decode64Encoded(|c.content|);
  }
}
