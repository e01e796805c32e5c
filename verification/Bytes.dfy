/** Little-endian words and fixed-size records in byte strings. */
module Bytes {
  import opened Events

  type byte = b: int | 0 <= b < 256

  function Pow256(k: nat): (p: nat)
    ensures p > 0
  {
    if k == 0 then 1 else 256 * Pow256(k - 1)
  }

  function EncodeLE(n: nat, k: nat): (s: seq<byte>)
    ensures |s| == k
  {
    if k == 0 then [] else [n % 256] + EncodeLE(n / 256, k - 1)
  }

  function DecodeLE(s: seq<byte>): nat {
    if s == [] then 0 else s[0] + 256 * DecodeLE(s[1..])
  }

  lemma {:induction false} DecodeBound(s: seq<byte>)
    ensures DecodeLE(s) < Pow256(|s|)
    decreases |s|
  {
    if s != [] {
      DecodeBound(s[1..]);
    }
  }

  lemma {:induction false} DecodeEncoded(n: nat, k: nat)
    requires n < Pow256(k)
    ensures DecodeLE(EncodeLE(n, k)) == n
    decreases k
  {
    if k > 0 {
      DecodeEncoded(n / 256, k - 1);
      assert EncodeLE(n, k)[1..] == EncodeLE(n / 256, k - 1);
    }
  }

  lemma Pow256Of8()
    ensures Pow256(8) == TWO_64
  {
    assert Pow256(4) == 256 * Pow256(3) && Pow256(3) == 256 * Pow256(2) && Pow256(2) == 256 * Pow256(1);
    assert Pow256(8) == 256 * Pow256(7) && Pow256(7) == 256 * Pow256(6) && Pow256(6) == 256 * Pow256(5);
  }

  function Encode64(n: u64): (s: seq<byte>)
    ensures |s| == 8
  {
    EncodeLE(n, 8)
  }

  function Decode64(s: seq<byte>): u64
    requires |s| == 8
  {
    DecodeBound(s);
    Pow256Of8();
    DecodeLE(s)
  }

  lemma Decode64Encoded(n: u64)
    ensures Decode64(Encode64(n)) == n
  {
    Pow256Of8();
    DecodeEncoded(n, 8);
  }

  /** A trace entry in memory and in the file. */
  function EncodeEntry(e: Entry): (s: seq<byte>)
    ensures |s| == 16
  {
    Encode64(e.address) + Encode64(e.cycle)
  }

  function DecodeEntry(s: seq<byte>): Entry
    requires |s| == 16
  {
    Entry(Decode64(s[..8]), Decode64(s[8..]))
  }

  function EncodeEntries(es: seq<Entry>): (s: seq<byte>)
    ensures |s| == 16 * |es|
  {
    if es == [] then [] else EncodeEntry(es[0]) + EncodeEntries(es[1..])
  }

  function DecodeEntries(s: seq<byte>): seq<Entry>
    requires |s| % 16 == 0
  {
    if s == [] then [] else [DecodeEntry(s[..16])] + DecodeEntries(s[16..])
  }

  lemma DecodeEntryEncoded(e: Entry)
    ensures DecodeEntry(EncodeEntry(e)) == e
  {
    assert EncodeEntry(e)[..8] == Encode64(e.address) && EncodeEntry(e)[8..] == Encode64(e.cycle);
    Decode64Encoded(e.address);
    Decode64Encoded(e.cycle);
  }

  lemma {:induction false} DecodeEntriesEncoded(es: seq<Entry>)
    ensures DecodeEntries(EncodeEntries(es)) == es
    decreases |es|
  {
    if es != [] {
      var s := EncodeEntries(es);
      assert s[..16] == EncodeEntry(es[0]) && s[16..] == EncodeEntries(es[1..]);
      DecodeEntryEncoded(es[0]);
      DecodeEntriesEncoded(es[1..]);
    }
  }

  /** A thread's identity as written: process, thread, and a 16-byte name. */
  datatype ThreadId = ThreadId(pid: u64, tid: u64, name: seq<byte>)

  const THREAD_ID_SIZE := 32

  function EncodeThreadId(id: ThreadId): seq<byte> {
    Encode64(id.pid) + Encode64(id.tid) + id.name
  }

  function DecodeThreadId(s: seq<byte>): ThreadId
    requires |s| == THREAD_ID_SIZE
  {
    ThreadId(Decode64(s[..8]), Decode64(s[8..16]), s[16..])
  }

  lemma DecodeThreadIdEncoded(id: ThreadId)
    requires |id.name| == 16
    ensures |EncodeThreadId(id)| == THREAD_ID_SIZE
    ensures DecodeThreadId(EncodeThreadId(id)) == id
  {
    var s := EncodeThreadId(id);
    assert s[..8] == Encode64(id.pid) && s[8..16] == Encode64(id.tid) && s[16..] == id.name;
    Decode64Encoded(id.pid);
    Decode64Encoded(id.tid);
  }

  lemma {:induction false} ZeroBytes(k: nat)
    ensures |EncodeLE(0, k)| == k && forall i :: 0 <= i < k ==> EncodeLE(0, k)[i] == 0
    decreases k
  {
    if k > 0 {
      ZeroBytes(k - 1);
    }
  }

  lemma SmallWord(n: nat)
    requires n < 256
    ensures Encode64(n) == [n, 0, 0, 0, 0, 0, 0, 0]
  {
    ZeroBytes(7);
    assert EncodeLE(n, 8) == [n] + EncodeLE(0, 7);
  }

  lemma TwoByteWord(low: nat, high: nat)
    requires low < 256 && high < 256
    ensures Encode64(low + 256 * high) == [low, high, 0, 0, 0, 0, 0, 0]
  {
    ZeroBytes(6);
    assert EncodeLE(low + 256 * high, 8) == [low] + EncodeLE(high, 7);
    assert EncodeLE(high, 7) == [high] + EncodeLE(0, 6);
  }

  /** The least byte comes first, an entry's address before its cycle, and a thread's process before the thread. */
  lemma Layout(name: seq<byte>)
    ensures EncodeEntry(Entry(258, 3)) == [2, 1, 0, 0, 0, 0, 0, 0] + [3, 0, 0, 0, 0, 0, 0, 0]
    ensures EncodeThreadId(ThreadId(1, 2, name)) == [1, 0, 0, 0, 0, 0, 0, 0] + [2, 0, 0, 0, 0, 0, 0, 0] + name
  {
    hide Encode64;
    TwoByteWord(2, 1);
    SmallWord(3);
    SmallWord(1);
    SmallWord(2);
  }
}
