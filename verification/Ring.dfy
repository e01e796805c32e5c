/** The per-thread trace buffer: a cyclic array of 16-byte entries in memory aligned to twice its size, a
position and a mask. Clearing the mask is what pauses tracing. */
module Ring {
  import opened Events
  import opened Search
  import Bits

  const ENTRY_SIZE: u64 := 16
  const ALL_ONES: u64 := TWO_64 - 1

  /** Events carry a positive clock that never goes back. */
  ghost predicate Clocked(log: seq<Entry>) {
    Sorted(log) && forall i :: 0 <= i < |log| ==> log[i].cycle > 0
  }

  /** The clock reads `cycle` after everything logged. */
  ghost predicate ClockAfter(log: seq<Entry>, cycle: u64) {
    cycle > 0 && (log != [] ==> log[|log| - 1].cycle <= cycle)
  }

  lemma ClockedMore(log: seq<Entry>, e: Entry)
    requires Clocked(log) && ClockAfter(log, e.cycle)
    ensures Clocked(log + [e])
  {
    assert forall i :: 0 <= i < |log| ==> log[i].cycle <= log[|log| - 1].cycle;
  }

  /** The last `n` entries of the log, or all of it. */
  function LastOf<T>(log: seq<T>, n: nat): seq<T> {
    if |log| <= n then log else log[|log| - n..]
  }

  /** The cells of a buffer and the log they are to hold the end of: `cursor` entries were written since
  the last wraparound, `turn` before it. */
  datatype Cells = Cells(cells: seq<Entry>, log: seq<Entry>, turn: nat, cursor: nat) {
    /** The slot of the next entry. */
    function Slot(): nat { if cursor == |cells| then 0 else cursor }

    ghost predicate Valid() {
      var n := |cells|;
      && |log| == turn + cursor && 0 < n && cursor <= n
      && (turn == 0 || (turn >= n && cursor > 0))
      && (forall i :: 0 <= i < cursor ==> cells[i] == log[turn + i])
      && (turn > 0 ==> forall i :: cursor <= i < n ==> cells[i] == log[turn - n + i])
      && Clocked(log)
      && (turn == 0 && cursor < n ==> cells[n - 1].cycle == 0)
    }

    function Put(e: Entry): Cells
      requires Slot() < |cells|
    {
      Cells(cells[Slot() := e], log + [e], if cursor == |cells| then turn + |cells| else turn, Slot() + 1)
    }

    lemma PutValid(e: Entry)
      requires Valid() && ClockAfter(log, e.cycle)
      ensures Put(e).Valid()
    {
      ClockedMore(log, e);
      if cursor == |cells| {
        PutWraps(e);
      } else {
        PutAdvances(e);
      }
    }

    lemma PutWraps(e: Entry)
      requires Valid() && cursor == |cells| && Clocked(log + [e])
      ensures Put(e).Valid()
    {
      var c := Put(e);
      assert c.cells[0] == e == c.log[c.turn];
      assert forall i :: 1 <= i < |cells| ==> c.cells[i] == log[turn + i];
    }

    lemma PutAdvances(e: Entry)
      requires Valid() && cursor < |cells| && Clocked(log + [e])
      ensures Put(e).Valid()
    {
      var c := Put(e);
      assert c.cells[cursor] == e == c.log[turn + cursor];
      assert forall i :: 0 <= i < cursor ==> c.cells[i] == log[turn + i];
    }

    /** Reading from the cursor to the end and then up to the cursor is reading in the order of time. */
    lemma Chronological()
      requires Valid()
      ensures LastOf(log, |cells|) == if turn > 0 then cells[cursor..] + cells[..cursor] else cells[..cursor]
    {
    }

    /** The last cell tells if the buffer was ever filled. */
    lemma LastCell()
      requires Valid()
      ensures cells[|cells| - 1].cycle != 0 <==> |log| >= |cells|
    {
    }
  }

  /** There is a buffer, but no entry fits into it. */
  predicate TooSmall(logBufSize: nat, address: u64) { 0 < logBufSize < 4 && address > 0 }

  lemma NoRoom(logBufSize: nat, address: u64)
    ensures TooSmall(logBufSize, address) <==> address > 0 && logBufSize > 0 && Bits.Pow2(logBufSize) / 16 == 0
  {
    if logBufSize >= 4 {
      SixteenDivides(logBufSize);
    } else {
      assert Bits.Pow2(1) == 2 && Bits.Pow2(2) == 4 && Bits.Pow2(3) == 8;
    }
  }

  class TraceData {
    var pos: u64
    var mask: u64       // wraparound_mask
    var buf: u64
    var bufSize: u64
    var thread: u64     // null for a finished thread
    var timeOfDeathMs: u64
    var mem: array<Entry>   // the cells at `buf`
    ghost var logSize: nat  // bufSize == 2^logSize
    ghost var ring: Cells

    ghost predicate Valid()
      reads this, mem
    {
      && (mask == 0 || mask == ALL_ONES - bufSize)
      && mem.Length == |ring.cells| && mem[..] == ring.cells
      && if bufSize == 0 then Empty() else InBuffer() && ring.Valid()
    }

    /** Everything recorded since the buffer was allocated. */
    ghost function Log(): seq<Entry>
      reads this
    {
      ring.log
    }

    ghost predicate Empty()
      reads this
    {
      buf == 0 && pos == 0 && ring == Cells([], [], 0, 0)
    }

    ghost predicate InBuffer()
      reads this
    {
      && logSize < 64 && bufSize == Bits.Pow2(logSize) && bufSize == ENTRY_SIZE * mem.Length
      && buf > 0 && buf % (2 * bufSize) == 0
      && buf + bufSize < TWO_64
      && pos == buf + ENTRY_SIZE * ring.cursor && ring.cursor <= mem.Length
    }

    constructor ()
      ensures Valid() && bufSize == 0 && mask == 0 && thread == 0 && fresh(mem) && Log() == []
    {
      pos, mask, buf, bufSize, thread, timeOfDeathMs := 0, 0, 0, 0, 0, 0;
      mem := new Entry[0];
      logSize, ring := 0, Cells([], [], 0, 0);
    }

    /** The copy constructor: the same buffer under a new object. */
    constructor Copy(from: TraceData)
      ensures pos == from.pos && mask == from.mask && buf == from.buf && bufSize == from.bufSize
      ensures thread == from.thread && timeOfDeathMs == from.timeOfDeathMs
      ensures mem == from.mem && logSize == from.logSize && ring == from.ring
    {
      pos, mask, buf, bufSize := from.pos, from.mask, from.buf, from.bufSize;
      thread, timeOfDeathMs := from.thread, from.timeOfDeathMs;
      mem, logSize, ring := from.mem, from.logSize, from.ring;
    }

    /** `address` is what the aligned allocation returned, 0 if it failed; a `logBufSize` of 0 asks for none.
    Zeroing the last entry is outside a buffer too small to have any. */
    method Allocate(logBufSize: nat, address: u64) returns (inside: bool)
      requires logBufSize <= 30
      requires address % (2 * Bits.Pow2(logBufSize)) == 0 && address + Bits.Pow2(logBufSize) < TWO_64
      modifies this
      ensures inside <==> !TooSmall(logBufSize, address)
      ensures inside ==> Valid() && fresh(mem) && Log() == []
      ensures thread == old(thread) && timeOfDeathMs == old(timeOfDeathMs)
      ensures inside ==>
              if logBufSize > 0 && address > 0
              then bufSize == Bits.Pow2(logBufSize) && mask == ALL_ONES - bufSize && buf == pos == address
              else bufSize == 0 && mask == 0
    {
      if TooSmall(logBufSize, address) {
        return false;
      }
      if logBufSize > 0 && address > 0 {
        Bits.Pow2Less(3, logBufSize);
        SixteenDivides(logBufSize);
        logSize := logBufSize;
        bufSize := Bits.Pow2(logBufSize);
        mask := ALL_ONES - bufSize;
        buf, pos := address, address;
        mem := new Entry[bufSize / ENTRY_SIZE];
        mem[bufSize / ENTRY_SIZE - 1] := Entry(mem[bufSize / ENTRY_SIZE - 1].address, 0);
      } else {
        bufSize, mask, buf, pos := 0, 0, 0, 0;
        mem := new Entry[0];
      }
      ring := Cells(mem[..], [], 0, 0);
      return true;
    }

    method PauseTracing()
      modifies this`mask
      ensures mask == 0 && (old(Valid()) ==> Valid())
    {
      mask := 0;
    }

    method ResumeTracing()
      modifies this`mask
      ensures mask == ALL_ONES - bufSize && (old(Valid()) ==> Valid())
    {
      mask := ALL_ONES - bufSize;
    }

    /** The C++ runtime's "free": the memory is given back, the object stays. */
    method Free()
      modifies this
      ensures Valid() && bufSize == 0 && mask == 0 && Log() == [] && fresh(mem)
      ensures thread == old(thread) && timeOfDeathMs == old(timeOfDeathMs)
    {
      mem := new Entry[0];
      bufSize, mask, buf, pos := 0, 0, 0, 0;
      ring := Cells([], [], 0, 0);
    }

    /** What `pos & wraparound_mask` is: the slot to write to, 0 when there is none. */
    lemma Masked()
      requires Valid()
      ensures Bits.And(pos, mask)
           == if mask == 0 || bufSize == 0 then 0
              else buf + ENTRY_SIZE * ring.Slot()
    {
      assert Bits.Pow2(64) == TWO_64 by {
        Pow2Of64();
      }
      if mask != 0 && bufSize > 0 {
        Bits.AlignedWrap(buf, logSize, pos, 64);
      }
    }

    /** The position and the end, in entries. */
    lemma Indices()
      requires Valid() && bufSize > 0
      ensures pos >= buf && (pos - buf) / ENTRY_SIZE == ring.cursor
      ensures bufSize / ENTRY_SIZE == mem.Length > 0
    {
    }

    /** Records an event, unless tracing is paused or there is no buffer. */
    method Trace(word: u64, cycle: u64)
      requires Valid() && ClockAfter(Log(), cycle)
      modifies this`pos, this`ring, mem
      ensures Valid()
      ensures old(mask) == 0 || old(bufSize) == 0 ==> pos == old(pos) && ring == old(ring)
      ensures old(mask) != 0 && old(bufSize) != 0 ==> Log() == old(Log()) + [Entry(word, cycle)]
    {
      Masked();
      var entry := Bits.And(pos, mask);
      if entry == 0 {
        return;
      }
      Store(entry, word, cycle);
      pos := entry + ENTRY_SIZE;
    }

    /** The two stores of an entry. */
    method Store(entry: u64, word: u64, cycle: u64)
      requires |ring.cells| == mem.Length && ring.Valid() && mem[..] == ring.cells && ClockAfter(Log(), cycle)
      requires entry == buf + ENTRY_SIZE * ring.Slot()
      modifies this`ring, mem
      ensures ring == old(ring).Put(Entry(word, cycle)) && ring.Valid() && mem[..] == ring.cells
    {
      ring.PutValid(Entry(word, cycle));
      mem[(entry - buf) / ENTRY_SIZE] := Entry(word, cycle);
      ring := ring.Put(Entry(word, cycle));
    }
  }

  lemma Pow2Of64()
    ensures Bits.Pow2(64) == TWO_64
  {
    assert Bits.Pow2(4) == 16;
    Pow2Twice(4, 4);
    Pow2Twice(8, 8);
    Pow2Twice(16, 16);
    Pow2Twice(32, 32);
  }

  lemma {:induction false} Pow2Twice(a: nat, b: nat)
    ensures Bits.Pow2(a + b) == Bits.Pow2(a) * Bits.Pow2(b)
    decreases a
  {
    if a > 0 {
      Pow2Twice(a - 1, b);
    }
  }

  lemma SixteenDivides(k: nat)
    requires k >= 4
    ensures Bits.Pow2(k) % 16 == 0 && Bits.Pow2(k) >= 16
  {
    if k > 4 {
      SixteenDivides(k - 1);
    }
  }
}
