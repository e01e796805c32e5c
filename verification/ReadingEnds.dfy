/** When reading a file ends. Skipping a chunk whose length reads as negative seeks backwards, so the reader may
come to a place again, and then it does so forever. */
module ReadingEnds {
  import opened Events
  import opened Search
  import opened Bytes
  import opened TraceFile

  /** Where reading is after some turns, None if it has stopped; what was read so far does not matter. */
  function Place(file: seq<byte>, pos: nat, n: nat): Option<nat>
    decreases n
  {
    if n == 0 then Some(pos)
    else
      match ReadChunk(file, pos, START)
      case Over(_) => None
      case GoesOn(p, _) => Place(file, p, n - 1)
  }

  lemma SamePlace(file: seq<byte>, pos: nat, r: Reader, q: Reader)
    ensures match ReadChunk(file, pos, r)
            case Over(_) => ReadChunk(file, pos, q).Over?
            case GoesOn(p, _) => ReadChunk(file, pos, q).GoesOn? && ReadChunk(file, pos, q).pos == p
  {
  }

  lemma {:induction false} TurnsPlace(file: seq<byte>, pos: nat, r: Reader, n: nat)
    ensures match Turns(file, pos, r, n)
            case Over(_) => Place(file, pos, n) == None
            case GoesOn(p, _) => Place(file, pos, n) == Some(p)
    decreases n
  {
    hide ReadChunk;
    if n > 0 {
      SamePlace(file, pos, r, START);
      match ReadChunk(file, pos, r)
      case Over(_) =>
      case GoesOn(p, q) => TurnsPlace(file, p, q, n - 1);
    }
  }

  lemma {:induction false} PlaceThen(file: seq<byte>, pos: nat, n: nat, m: nat)
    ensures Place(file, pos, n + m) == match Place(file, pos, n) case None => None case Some(p) => Place(file, p, m)
    decreases n
  {
    hide ReadChunk;
    if n > 0 {
      match ReadChunk(file, pos, START)
      case Over(_) =>
      case GoesOn(p, _) => PlaceThen(file, p, n - 1, m);
    }
  }

  /** A place that is left again is in the file. */
  lemma LeftInside(file: seq<byte>, pos: nat)
    ensures Place(file, pos, 1).Some? ==> pos < |file|
  {
  }

  /** Reading goes on forever. */
  ghost predicate Endless(file: seq<byte>) { forall n: nat :: Place(file, 0, n).Some? }

  /** Reading comes to a place twice. */
  ghost predicate ComesBack(file: seq<byte>) {
    exists i: nat, j: nat :: i < j && Place(file, 0, i).Some? && Place(file, 0, i) == Place(file, 0, j)
  }

  /** From a place that reading comes back to, it comes back again and again. */
  lemma {:induction false} GoesRound(file: seq<byte>, i: nat, j: nat, n: nat)
    requires i < j && Place(file, 0, i).Some? && Place(file, 0, i) == Place(file, 0, j)
    ensures Place(file, 0, n).Some?
    decreases n
  {
    hide Place;
    if n <= j {
      PlaceThen(file, 0, n, j - n);
    } else {
      PlaceThen(file, 0, i, n - j);
      PlaceThen(file, 0, j, n - j);
      GoesRound(file, i, j, n - (j - i));
    }
  }

  function Without(s: seq<nat>, i: nat): seq<nat>
    requires i < |s|
  {
    s[..i] + s[i + 1..]
  }

  /** Different numbers below `m` are at most `m`. */
  lemma {:induction false} AllDifferent(s: seq<nat>, m: nat)
    requires forall i :: 0 <= i < |s| ==> s[i] < m
    requires forall i, j :: 0 <= i < j < |s| ==> s[i] != s[j]
    ensures |s| <= m
    decreases m
  {
    assert |s| > 0 ==> 0 <= s[0] < m;
    if m > 0 {
      if k :| 0 <= k < |s| && s[k] == m - 1 {
        AllDifferent(Without(s, k), m - 1);
      } else {
        AllDifferent(s, m - 1);
      }
    }
  }

  /** The places after 0 to `n - 1` turns. */
  lemma {:induction false} Places(file: seq<byte>, n: nat) returns (s: seq<nat>)
    requires Place(file, 0, n).Some?
    ensures |s| == n && forall i: nat :: i < n ==> Place(file, 0, i) == Some(s[i])
    decreases n
  {
    hide Place;
    s := [];
    if n > 0 {
      PlaceThen(file, 0, n - 1, 1);
      s := Places(file, n - 1);
      s := s + [Place(file, 0, n - 1).value];
    }
  }

  /** A file that is still being read after one turn more than it has bytes is being read in a circle. */
  lemma ReadTooLong(file: seq<byte>)
    requires Place(file, 0, |file| + 1).Some?
    ensures ComesBack(file)
  {
    hide Place;
    var n := |file| + 1;
    var s := Places(file, n);
    forall i | 0 <= i < n ensures s[i] < |file| {
      PlaceThen(file, 0, i + 1, n - i - 1);
      PlaceThen(file, 0, i, 1);
      LeftInside(file, s[i]);
    }
    if forall i, j :: 0 <= i < j < n ==> s[i] != s[j] {
      AllDifferent(s, |file|);
    } else {
      var i, j :| 0 <= i < j < n && s[i] == s[j];
      assert Place(file, 0, i) == Place(file, 0, j);
    }
  }

  /** Reading never ends exactly if it comes to a place twice, which it has done after one turn more than there
  are bytes. */
  lemma EndlessExactly(file: seq<byte>)
    ensures Endless(file) <==> ComesBack(file)
    ensures Endless(file) <==> ParseFrom(file, START) == None
  {
    hide Place, Turns;
    TurnsPlace(file, 0, START, |file| + 1);
    if Place(file, 0, |file| + 1).Some? {
      ReadTooLong(file);
    }
    if ComesBack(file) {
      var i: nat, j: nat :| i < j && Place(file, 0, i).Some? && Place(file, 0, i) == Place(file, 0, j);
      forall n: nat ensures Place(file, 0, n).Some? {
        GoesRound(file, i, j, n);
      }
    }
  }

  /** A chunk that is skipped is left forwards. */
  predicate LeadsForward(file: seq<byte>, pos: nat) {
    pos + 16 <= |file| ==>
      var length := Decode64(file[pos + 8..pos + 16]);
      Skips(file[pos..pos + 8], length) ==> Target(pos, length) > pos
  }

  /** Every length that may be skipped reads as positive. */
  ghost predicate SkipsForward(file: seq<byte>) { forall pos: nat :: LeadsForward(file, pos) }

  lemma ForwardStep(file: seq<byte>, pos: nat)
    requires SkipsForward(file)
    ensures Place(file, pos, 1).Some? ==> Place(file, pos, 1).value > pos
  {
    hide Decode64, Skips;
    assert LeadsForward(file, pos);
  }

  lemma {:induction false} ForwardGrows(file: seq<byte>, n: nat)
    requires SkipsForward(file) && Place(file, 0, n).Some?
    ensures Place(file, 0, n).value >= n
    decreases n
  {
    hide Place;
    if n > 0 {
      PlaceThen(file, 0, n - 1, 1);
      ForwardGrows(file, n - 1);
      ForwardStep(file, Place(file, 0, n - 1).value);
    } else {
      StartPlace(file);
    }
  }

  lemma StartPlace(file: seq<byte>)
    ensures Place(file, 0, 0) == Some(0)
  {
  }

  /** A file in which no skipped length leads backwards is read to its end. */
  lemma ForwardEnds(file: seq<byte>)
    requires SkipsForward(file)
    ensures ParseFrom(file, START).Some?
  {
    hide Place, ReadChunk;
    var n := |file|;
    TurnsPlace(file, 0, START, n + 1);
    if Place(file, 0, n + 1).Some? {
      PlaceThen(file, 0, n, 1);
      ForwardGrows(file, n);
      LeftInside(file, Place(file, 0, n).value);
    }
  }

  /** One unknown chunk whose length reads as -16. */
  function Circle(): seq<byte> { [88, 88, 88, 88, 88, 88, 88, 88] + Encode64(TWO_64 - 16) }

  lemma CircleReads()
    ensures ReadChunk(Circle(), 0, START) == GoesOn(0, START)
  {
    hide Decode64, Encode64;
    var file := Circle();
    Decode64Encoded(TWO_64 - 16);
    assert file[0..8] == [88, 88, 88, 88, 88, 88, 88, 88] && file[8..16] == Encode64(TWO_64 - 16);
    assert file[0] != PROCMAPS[0] && file[0] != FUNTRACE[0] && file[0] != CMD_LINE[0] && file[0] != THREADID[0]
        && file[0] != ENDTRACE[0];
  }

  lemma CircleEndless()
    ensures Endless(Circle())
  {
    hide ReadChunk, Circle;
    var file := Circle();
    CircleReads();
    EndlessExactly(file);
    assert Place(file, 0, 0) == Place(file, 0, 1);
  }
}
