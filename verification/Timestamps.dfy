/** The two parsers of ftrace lines: the runtime's, which reads the digits backwards from ": " and lets
them wrap around, and the decoder's, which reads them forwards and rewrites them. */
module Timestamps {
  import opened Events
  import opened Search
  import opened Decimal

  /** Where ": " first is. */
  function Colon(line: string): (k: Option<nat>)
    ensures k.Some? ==> k.value + 2 <= |line|
  {
    if |line| < 2 then None
    else if line[0] == ':' && line[1] == ' ' then Some(0)
    else
      match Colon(line[1..])
      case None => None
      case Some(k) => Some(k + 1)
  }

  /** The same for a C string, which ends at its first NUL. */
  function ColonInCString(line: string): (k: Option<nat>)
    ensures k.Some? ==> k.value + 2 <= |line|
  {
    if |line| < 2 || line[0] == '\0' then None
    else if line[0] == ':' && line[1] == ' ' then Some(0)
    else
      match ColonInCString(line[1..])
      case None => None
      case Some(k) => Some(k + 1)
  }

  lemma {:induction false} CStringColon(line: string)
    ensures ColonInCString(line).Some? ==> Colon(line) == ColonInCString(line)
    decreases |line|
  {
    if |line| >= 2 {
      CStringColon(line[1..]);
    }
  }

  /** Where a string's last space is. */
  function LastSpace(s: string): (j: Option<nat>)
    ensures j.Some? ==> j.value < |s| && s[j.value] == ' '
  {
    if s == "" then None else if s[|s| - 1] == ' ' then Some(|s| - 1) else LastSpace(s[..|s| - 1])
  }

  // The runtime.

  /** What stands between ": " and the last space before it. */
  function Digits(line: string): string {
    match ColonInCString(line)
    case None => ""
    case Some(k) =>
      match LastSpace(line[..k])
      case None => ""
      case Some(j) => line[j + 1..k]
  }

  /** The number there, modulo 2^64; zero, which is no timestamp, without one. */
  function RuntimeTimestamp(line: string): u64 {
    if AllDigits(Digits(line)) then ValueOf(Digits(line)) % TWO_64 else 0
  }

  lemma {:induction false} ValueOfFirst(c: char, s: string)
    requires IsDigit(c) && AllDigits(s)
    ensures AllDigits([c] + s) && ValueOf([c] + s) == Digit(c) * Pow10(|s|) + ValueOf(s)
    decreases |s|
  {
    if s == "" {
      assert [c] + s == [c] && [c][..0] == "";
    } else {
      var front, last := s[..|s| - 1], s[|s| - 1];
      ValueOfFirst(c, front);
      assert ([c] + s)[..|s|] == [c] + front;
      assert 10 * (Digit(c) * Pow10(|front|)) == Digit(c) * Pow10(|s|);
    }
  }

  lemma WrapDigit(time: nat, mult: nat, d: nat)
    ensures (time % TWO_64 + d * (mult % TWO_64)) % TWO_64 == (time + d * mult) % TWO_64
    ensures (mult % TWO_64 * 10) % TWO_64 == (mult * 10) % TWO_64
  {
    var a, b := time / TWO_64, mult / TWO_64;
    assert time == TWO_64 * a + time % TWO_64 && mult == TWO_64 * b + mult % TWO_64;
    assert time + d * mult == time % TWO_64 + d * (mult % TWO_64) + TWO_64 * (a + d * b);
    WrapMultiple(time % TWO_64 + d * (mult % TWO_64), a + d * b);
    assert mult * 10 == mult % TWO_64 * 10 + TWO_64 * (10 * b);
    WrapMultiple(mult % TWO_64 * 10, 10 * b);
  }

  lemma WrapMultiple(z: nat, k: nat)
    ensures (z + TWO_64 * k) % TWO_64 == z % TWO_64
  {
  }

  /** One digit read by the backward loop. */
  lemma DigitRead(c: char, s: string, time: u64, mult: u64)
    requires IsDigit(c) && AllDigits(s) && time == ValueOf(s) % TWO_64 && mult == Pow10(|s|) % TWO_64
    ensures AllDigits([c] + s)
    ensures (time + Digit(c) * mult) % TWO_64 == ValueOf([c] + s) % TWO_64
    ensures mult * 10 % TWO_64 == Pow10(|s| + 1) % TWO_64
  {
    ValueOfFirst(c, s);
    WrapDigit(ValueOf(s), Pow10(|s|), Digit(c));
  }

  lemma {:induction false} LastSpaceIs(s: string, j: nat)
    requires j < |s| && s[j] == ' ' && forall i :: j < i < |s| ==> s[i] != ' '
    ensures LastSpace(s) == Some(j)
    decreases |s|
  {
    if j < |s| - 1 {
      LastSpaceIs(s[..|s| - 1], j);
    }
  }

  lemma {:induction false} NoLastSpace(s: string)
    requires forall i :: 0 <= i < |s| ==> s[i] != ' '
    ensures LastSpace(s) == None
    decreases |s|
  {
    if s != "" {
      NoLastSpace(s[..|s| - 1]);
    }
  }

  /** The first ": " of the line, with no NUL before it. */
  lemma {:induction false} ColonExactly(line: string, k: nat)
    ensures ColonInCString(line) == Some(k)
       <==> && k + 2 <= |line| && line[k] == ':' && line[k + 1] == ' '
            && forall i :: 0 <= i < k ==> line[i] != '\0' && !(line[i] == ':' && line[i + 1] == ' ')
    decreases |line|
  {
    if |line| >= 2 && line[0] != '\0' && !(line[0] == ':' && line[1] == ' ') && k > 0 {
      ColonExactly(line[1..], k - 1);
      assert forall i :: 1 <= i < |line| ==> line[i] == line[1..][i - 1];
    }
  }

  lemma {:induction false} LastSpaceThere(s: string)
    ensures LastSpace(s).Some? ==> forall i :: LastSpace(s).value < i < |s| ==> s[i] != ' '
    ensures LastSpace(s).None? ==> forall i :: 0 <= i < |s| ==> s[i] != ' '
    decreases |s|
  {
    if s != "" {
      LastSpaceThere(s[..|s| - 1]);
      assert forall i :: 0 <= i < |s| - 1 ==> s[i] == s[..|s| - 1][i];
    }
  }

  /** A space, digits, and the first ": " of the line, with no NUL before. */
  ghost predicate HasStamp(line: string, before: string, digits: string, after: string) {
    && line == before + " " + digits + ": " + after
    && AllDigits(digits)
    && forall i :: 0 <= i < |before| + 1 + |digits| ==> line[i] != '\0' && !(line[i] == ':' && line[i + 1] == ' ')
  }

  lemma StampedTimestamp(line: string, before: string, digits: string, after: string)
    requires HasStamp(line, before, digits, after)
    ensures RuntimeTimestamp(line) == ValueOf(digits) % TWO_64
  {
    StampDigits(line, before, digits, after);
  }

  lemma TimestampStamped(line: string) returns (before: string, digits: string, after: string)
    requires RuntimeTimestamp(line) != 0
    ensures HasStamp(line, before, digits, after) && RuntimeTimestamp(line) == ValueOf(digits) % TWO_64
  {
    hide ColonInCString, LastSpace;
    if Digits(line) == "" {
      NoTimestamp(line);
    }
    DigitsThere(line);
    var k := ColonInCString(line).value;
    var j := LastSpace(line[..k]).value;
    ColonExactly(line, k);
    before, digits, after := line[..j], line[j + 1..k], line[k + 2..];
    assert line == before + " " + digits + ": " + after;
  }

  /** A line is stored with a time exactly if it is stamped with digits whose number is that modulo 2^64. */
  lemma StoredExactlyIf(line: string, time: u64)
    requires time != 0
    ensures RuntimeTimestamp(line) == time
       <==> exists before, digits, after :: HasStamp(line, before, digits, after) && ValueOf(digits) % TWO_64 == time
  {
    hide RuntimeTimestamp, ColonInCString, ValueOf;
    if RuntimeTimestamp(line) == time {
      var before, digits, after := TimestampStamped(line);
    }
    forall before, digits, after | HasStamp(line, before, digits, after) && ValueOf(digits) % TWO_64 == time
      ensures RuntimeTimestamp(line) == time
    {
      StampedTimestamp(line, before, digits, after);
    }
  }

  lemma DigitsThere(line: string)
    ensures Digits(line) != "" ==>
              && ColonInCString(line).Some? && LastSpace(line[..ColonInCString(line).value]).Some?
              && var k := ColonInCString(line).value;
                 Digits(line) == line[LastSpace(line[..k]).value + 1..k]
  {
  }

  method ParseTimestamp(line: string) returns (time: u64)
    ensures time == RuntimeTimestamp(line)
  {
    var colon := ColonInCString(line);
    if colon.None? { return 0; }
    var q := colon.value;
    ghost var k := q;
    var mult: u64 := 1;
    time := 0;
    while q > 0
      invariant 0 <= q <= k && AllDigits(line[q..k])
      invariant time == ValueOf(line[q..k]) % TWO_64 && mult == Pow10(k - q) % TWO_64
    {
      q := q - 1;
      assert line[q..k] == [line[q]] + line[q + 1..k];
      if line[q] == ' ' {
        LastSpaceIs(line[..k], q);
        return;
      }
      if !IsDigit(line[q]) {
        BadDigit(line, k, q);
        return 0;
      }
      DigitRead(line[q], line[q + 1..k], time, mult);
      time, mult := (time + Digit(line[q]) * mult) % TWO_64, mult * 10 % TWO_64;
    }
    NoLastSpace(line[..k]);
    return 0;
  }

  lemma LastSpaceBelow(s: string, q: nat)
    requires forall i :: q <= i < |s| ==> s[i] != ' '
    ensures LastSpace(s).Some? ==> LastSpace(s).value < q
  {
  }

  lemma NoSpaceFrom(line: string, k: nat, q: nat)
    requires q < k <= |line| && AllDigits(line[q + 1..k]) && line[q] != ' '
    ensures forall i :: q <= i < k ==> line[..k][i] != ' '
  {
    forall i | q < i < k ensures line[i] != ' ' {
      assert IsDigit(line[q + 1..k][i - q - 1]);
    }
  }

  lemma DigitsFrom(line: string, k: nat, j: nat)
    requires ColonInCString(line) == Some(k) && LastSpace(line[..k]) == Some(j)
    ensures Digits(line) == line[j + 1..k]
  {
  }

  lemma NoTimestamp(line: string)
    requires !AllDigits(Digits(line)) || Digits(line) == ""
    ensures RuntimeTimestamp(line) == 0
  {
  }

  /** A character that is neither a digit nor a space is after the last space, so it is read. */
  lemma BadDigit(line: string, k: nat, q: nat)
    requires q < k <= |line| && AllDigits(line[q + 1..k]) && !IsDigit(line[q]) && line[q] != ' '
    requires ColonInCString(line) == Some(k)
    ensures RuntimeTimestamp(line) == 0
  {
    hide RuntimeTimestamp, ColonInCString, LastSpace, IsDigit;
    NoSpaceFrom(line, k, q);
    LastSpaceBelow(line[..k], q);
    var j := LastSpace(line[..k]);
    if j.Some? {
      DigitsFrom(line, k, j.value);
      NotDigits(line[j.value + 1..k], q - j.value - 1);
    }
    NoTimestamp(line);
  }

  lemma NotDigits(s: string, i: nat)
    requires i < |s| && !IsDigit(s[i])
    ensures !AllDigits(s)
  {
  }

  // The decoder.

  /** Unicode's White_Space. */
  predicate IsWhitespace(c: char) {
    var u := c as int;
    || 0x09 <= u <= 0x0d || u == 0x20 || u == 0x85 || u == 0xa0 || u == 0x1680 || 0x2000 <= u <= 0x200a
    || u == 0x2028 || u == 0x2029 || u == 0x202f || u == 0x205f || u == 0x3000
  }

  /** The white space of one byte is tab, line feed, vertical tab, form feed, carriage return and space; these are
  the others. */
  lemma WhitespaceExactly(c: char)
    ensures IsWhitespace(c) && OneByte(c) <==> c as int in {9, 10, 11, 12, 13, 32}
    ensures IsWhitespace(c) && !OneByte(c)
       <==> c as int in {133, 160, 5760, 8192, 8193, 8194, 8195, 8196, 8197, 8198, 8199, 8200, 8201, 8202, 8232, 8233,
                         8239, 8287, 12288}
    ensures OneByte(c) <==> c as int / 128 == 0
  {
  }

  function LastWhitespace(s: string): (j: Option<nat>)
    ensures j.Some? ==> j.value < |s|
  {
    if s == "" then None else if IsWhitespace(s[|s| - 1]) then Some(|s| - 1) else LastWhitespace(s[..|s| - 1])
  }

  /** A string read as an unsigned 64-bit number: digits, perhaps after a plus, and no overflow. */
  function ParseU64(s: string): Option<u64> {
    var digits := if s != "" && s[0] == '+' then s[1..] else s;
    if digits == "" || !AllDigits(digits) || ValueOf(digits) >= TWO_64 then None else Some(ValueOf(digits))
  }

  /** Any number below 2^64 is read, with a plus before it or without. */
  lemma NumberRead(n: nat)
    ensures var number := if n < TWO_64 then Some(n) else None;
            ParseU64(NatToString(n)) == number && ParseU64("+" + NatToString(n)) == number
  {
    var digits := NatToString(n);
    assert IsDigit(digits[0]);
    assert ("+" + digits)[1..] == digits;
  }

  datatype FtraceEvent = FtraceEvent(timestamp: u64, line: string)

  /** What becomes of a line; slicing inside a character aborts. */
  datatype Outcome = Dropped | Kept(event: FtraceEvent) | Aborts

  /** Characters from U+0080 on take several bytes. */
  predicate OneByte(c: char) { c as int < 0x80 }

  function DecoderLine(line: string, shown: u64 -> string): Outcome {
    match Colon(line)
    case None => Dropped
    case Some(k) =>
      match LastWhitespace(line[..k])
      case None => Dropped
      case Some(j) =>
        if !OneByte(line[j]) then Aborts
        else
          match ParseU64(line[j + 1..k])
          case None => Dropped
          case Some(t) => Kept(FtraceEvent(t, line[..j + 1] + shown(t) + line[k..]))
  }

  lemma {:induction false} LastWhitespaceIs(s: string, j: nat)
    requires j < |s| && IsWhitespace(s[j]) && forall i :: j < i < |s| ==> !IsWhitespace(s[i])
    ensures LastWhitespace(s) == Some(j)
    decreases |s|
  {
    if j < |s| - 1 {
      LastWhitespaceIs(s[..|s| - 1], j);
    }
  }

  /** A line the runtime stored is kept by the decoder exactly if its number fits 64 bits, then with the
  number the runtime read, only the digits being replaced; otherwise it is dropped. */
  lemma ParsersAgree(line: string, shown: u64 -> string) returns (before: string, after: string)
    requires RuntimeTimestamp(line) != 0
    ensures line == before + Digits(line) + after && AllDigits(Digits(line)) && Digits(line) != ""
    ensures DecoderLine(line, shown)
         == if ValueOf(Digits(line)) < TWO_64
            then Kept(FtraceEvent(RuntimeTimestamp(line), before + shown(RuntimeTimestamp(line)) + after))
            else Dropped
  {
    CStringColon(line);
    var k := ColonInCString(line).value;
    var j := LastSpace(line[..k]).value;
    var digits := Digits(line);
    before, after := line[..j + 1], line[k..];
    forall i | j < i < k ensures !IsWhitespace(line[..k][i]) {
      assert IsDigit(digits[i - j - 1]);
    }
    LastWhitespaceIs(line[..k], j);
    assert digits[0] != '+' by { assert IsDigit(digits[0]); }
  }

  lemma {:induction false} ColonAfter(s: string)
    requires forall i :: 0 <= i < |s| ==> s[i] != ':' && s[i] != '\0'
    ensures ColonInCString(s + ": ") == Some(|s|)
    decreases |s|
  {
    if s == "" {
      assert s + ": " == ": ";
    } else {
      ColonAfter(s[1..]);
      assert (s + ": ")[1..] == s[1..] + ": ";
    }
  }

  /** A number too large makes them disagree: the runtime stores the line under another time, and the
  decoder drops it. */
  lemma OverflowDisagrees(n: nat, shown: u64 -> string)
    requires n >= TWO_64 && n % TWO_64 != 0
    ensures var line := " " + NatToString(n) + ": ";
            RuntimeTimestamp(line) == n % TWO_64 != n && DecoderLine(line, shown) == Dropped
  {
    var digits := NatToString(n);
    var s := " " + digits;
    forall i | 0 <= i < |s| ensures s[i] != ':' && s[i] != '\0' && (i > 0 ==> s[i] != ' ') {
      assert i > 0 ==> IsDigit(digits[i - 1]);
    }
    ColonAfter(s);
    assert (s + ": ")[..|s|] == s;
    LastSpaceIs(s, 0);
    assert s[1..] == digits;
    var before, after := ParsersAgree(s + ": ", shown);
  }

  // What kinds of lines the decoder keeps.

  /** Something that ends in a one-byte white-space character, a word without any, and the first ": " of the line. */
  ghost predicate Splits(line: string, before: string, word: string, after: string) {
    && line == before + word + after
    && before != "" && IsWhitespace(before[|before| - 1]) && OneByte(before[|before| - 1])
    && (forall i :: 0 <= i < |word| ==> !IsWhitespace(word[i]))
    && Colon(line) == Some(|before| + |word|)
  }

  lemma {:induction false} WordAfterWhitespace(s: string, i: nat)
    requires i < |s| && LastWhitespace(s).Some? && i > LastWhitespace(s).value
    ensures !IsWhitespace(s[i])
    decreases |s|
  {
    if i < |s| - 1 {
      WordAfterWhitespace(s[..|s| - 1], i);
    }
  }

  lemma {:induction false} WhitespaceThere(s: string)
    ensures LastWhitespace(s).Some? ==> IsWhitespace(s[LastWhitespace(s).value])
    decreases |s|
  {
    if s != "" {
      WhitespaceThere(s[..|s| - 1]);
    }
  }

  lemma SplitKept(line: string, before: string, word: string, after: string, shown: u64 -> string)
    requires Splits(line, before, word, after)
    ensures DecoderLine(line, shown)
         == match ParseU64(word)
            case None => Dropped
            case Some(t) => Kept(FtraceEvent(t, before + shown(t) + after))
  {
    hide ParseU64, Colon;
    var k, j := |before| + |word|, |before| - 1;
    assert line[..k] == before + word;
    LastWhitespaceIs(line[..k], j);
    assert line[..j + 1] == before && line[j + 1..k] == word && line[k..] == after;
  }

  /** A line is kept exactly if between its last white space, of one byte, before the first ": " and there, there is
  a number of 64 bits; that is its timestamp, and all else of the line stays. */
  lemma KeptExactly(line: string, e: FtraceEvent, shown: u64 -> string)
    ensures DecoderLine(line, shown) == Kept(e)
       <==> exists before, word, after ::
              && Splits(line, before, word, after)
              && ParseU64(word) == Some(e.timestamp)
              && e.line == before + shown(e.timestamp) + after
  {
    hide ParseU64, Colon;
    if DecoderLine(line, shown) == Kept(e) {
      var k := Colon(line).value;
      WhitespaceThere(line[..k]);
      var j := LastWhitespace(line[..k]).value;
      var before, word, after := line[..j + 1], line[j + 1..k], line[k..];
      forall i | 0 <= i < |word| ensures !IsWhitespace(word[i]) {
        WordAfterWhitespace(line[..k], j + 1 + i);
      }
      assert Splits(line, before, word, after);
    }
    forall before, word, after | Splits(line, before, word, after) && ParseU64(word) == Some(e.timestamp)
                                 && e.line == before + shown(e.timestamp) + after
      ensures DecoderLine(line, shown) == Kept(e)
    {
      SplitKept(line, before, word, after, shown);
    }
  }

  /** All lines, in order; None if the decoder aborts. */
  function DecoderLines(lines: seq<string>, shown: u64 -> string): Option<seq<FtraceEvent>> {
    if lines == [] then Some([])
    else
      var front := DecoderLines(lines[..|lines| - 1], shown);
      var last := DecoderLine(lines[|lines| - 1], shown);
      if front.None? || last.Aborts? then None
      else if last.Dropped? then front else Some(front.value + [last.event])
  }

  method ParseFtraceLines(lines: seq<string>, shown: u64 -> string) returns (results: Option<seq<FtraceEvent>>)
    ensures results == DecoderLines(lines, shown)
  {
    var kept: seq<FtraceEvent> := [];
    for n := 0 to |lines|
      invariant DecoderLines(lines[..n], shown) == Some(kept)
    {
      assert lines[..n + 1][..n] == lines[..n];
      var outcome := ParseFtraceLine(lines[n], shown);
      if outcome.Aborts? {
        AbortsForGood(lines, n + 1, shown);
        return None;
      }
      if outcome.Kept? { kept := kept + [outcome.event]; }
    }
    assert lines[..|lines|] == lines;
    return Some(kept);
  }

  method ParseFtraceLine(line: string, shown: u64 -> string) returns (outcome: Outcome)
    ensures outcome == DecoderLine(line, shown)
  {
    var colon := Colon(line);
    if colon.None? { return Dropped; }
    var space := LastWhitespace(line[..colon.value]);
    if space.None? { return Dropped; }
    if !OneByte(line[space.value]) { return Aborts; }
    var timestamp := ParseU64(line[space.value + 1..colon.value]);
    if timestamp.None? { return Dropped; }
    var modified := line[..space.value + 1] + shown(timestamp.value) + line[colon.value..];
    return Kept(FtraceEvent(timestamp.value, modified));
  }

  lemma {:induction false} AbortsForGood(lines: seq<string>, n: nat, shown: u64 -> string)
    requires n <= |lines| && DecoderLines(lines[..n], shown).None?
    ensures DecoderLines(lines, shown).None?
    decreases |lines|
  {
    if n < |lines| {
      assert lines[..|lines| - 1][..n] == lines[..n];
      AbortsForGood(lines[..|lines| - 1], n, shown);
    } else {
      assert lines[..n] == lines;
    }
  }

  /** Stored by the runtime, and its number is the one it says. */
  predicate StoredExactly(line: string) {
    RuntimeTimestamp(line) != 0 && AllDigits(Digits(line)) && ValueOf(Digits(line)) < TWO_64
  }

  lemma StampStored(line: string, before: string, digits: string, after: string)
    requires HasStamp(line, before, digits, after) && 0 < ValueOf(digits) < TWO_64
    ensures StoredExactly(line) && RuntimeTimestamp(line) == ValueOf(digits)
  {
    hide HasStamp;
    StampedTimestamp(line, before, digits, after);
    StampDigits(line, before, digits, after);
  }

  lemma StampDigits(line: string, before: string, digits: string, after: string)
    requires HasStamp(line, before, digits, after)
    ensures Digits(line) == digits
  {
    hide ColonInCString;
    var k, j := |before| + 1 + |digits|, |before|;
    ColonExactly(line, k);
    assert line[..k] == before + " " + digits && line[j + 1..k] == digits;
    forall i | j < i < k ensures line[..k][i] != ' ' {
      assert IsDigit(digits[i - j - 1]);
    }
    LastSpaceIs(line[..k], j);
  }

  lemma StoredLineKept(line: string, shown: u64 -> string)
    requires StoredExactly(line)
    ensures DecoderLine(line, shown).Kept? && DecoderLine(line, shown).event.timestamp == RuntimeTimestamp(line)
  {
    var before, after := ParsersAgree(line, shown);
  }

  /** The times of stored lines, as the runtime has them. */
  function RuntimeTimes(lines: seq<string>): seq<u64> {
    if lines == [] then [] else RuntimeTimes(lines[..|lines| - 1]) + [RuntimeTimestamp(lines[|lines| - 1])]
  }

  function TimesOf(events: seq<FtraceEvent>): seq<u64> {
    if events == [] then [] else TimesOf(events[..|events| - 1]) + [events[|events| - 1].timestamp]
  }

  /** Lines stored by the runtime without overflow come out one for one, with the times stored. */
  lemma {:induction false} StoredLinesKept(lines: seq<string>, shown: u64 -> string)
    requires forall n :: 0 <= n < |lines| ==> StoredExactly(lines[n])
    ensures DecoderLines(lines, shown).Some? && TimesOf(DecoderLines(lines, shown).value) == RuntimeTimes(lines)
    decreases |lines|
  {
    if lines != [] {
      StoredLinesKept(lines[..|lines| - 1], shown);
      StoredLineKept(lines[|lines| - 1], shown);
    }
  }
}
