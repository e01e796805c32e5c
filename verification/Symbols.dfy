/** From a code address to a function: memory maps, program headers and symbol tables searched by
halving, with caches that must not show. Sums wrap around at 2^64, as in a release build. */
module Symbols {
  import opened Events
  import opened Search

  function Wrap(n: int): u64 { n % TWO_64 }

  // The library's binary search, known by its documentation.

  datatype Ordering = Less | Equal | Greater

  function Rank(o: Ordering): nat { match o case Less => 0 case Equal => 1 case Greater => 2 }

  datatype Hit = Found(i: nat) | Missing(pos: nat)

  /** The search depends only on how the elements compare; which of several equal ones it finds is its own choice. */
  type LibrarySearch = seq<Ordering> -> Hit

  ghost predicate Partitioned(o: seq<Ordering>) {
    forall i, j :: 0 <= i < j < |o| ==> Rank(o[i]) <= Rank(o[j])
  }

  ghost predicate Answers(o: seq<Ordering>, h: Hit) {
    match h
    case Found(i) => i < |o| && o[i] == Equal
    case Missing(pos) =>
      && pos <= |o|
      && (forall i :: 0 <= i < pos ==> o[i] == Less)
      && forall i :: pos <= i < |o| ==> o[i] == Greater
  }

  ghost predicate Faithful(search: LibrarySearch) {
    forall o :: Partitioned(o) ==> Answers(o, search(o))
  }

  /** The first equal element, or the place before the first greater one. */
  function LinearFrom(o: seq<Ordering>, i: nat): Hit
    requires i <= |o|
    decreases |o| - i
  {
    if i == |o| || o[i] == Greater then Missing(i) else if o[i] == Equal then Found(i) else LinearFrom(o, i + 1)
  }

  function LinearSearch(o: seq<Ordering>): Hit { LinearFrom(o, 0) }

  lemma {:induction false} LinearAnswers(o: seq<Ordering>, i: nat)
    requires Partitioned(o) && i <= |o| && forall j :: 0 <= j < i ==> o[j] == Less
    ensures Answers(o, LinearFrom(o, i))
    decreases |o| - i
  {
    if i < |o| && o[i] == Less {
      LinearAnswers(o, i + 1);
    }
  }

  /** Element `pick`, if that is an equal one. */
  function PickyAnswer(pick: nat, o: seq<Ordering>): Hit {
    if pick < |o| && o[pick] == Equal then Found(pick) else LinearSearch(o)
  }

  function PickySearch(pick: nat): LibrarySearch { o => PickyAnswer(pick, o) }

  /** There are faithful searches: a scan is one, and so is any that prefers an equal element to the others. */
  lemma FaithfulExist(pick: nat)
    ensures Faithful(LinearSearch) && Faithful(PickySearch(pick))
  {
    forall o: seq<Ordering> | Partitioned(o) ensures Answers(o, LinearSearch(o)) && Answers(o, PickySearch(pick)(o)) {
      LinearAnswers(o, 0);
    }
  }

  // Memory maps.

  /** A line of /proc/self/maps; the path is absent for anonymous and special mappings. */
  datatype Mapping = Mapping(start: u64, end: u64, offset: u64, path: Option<string>)

  predicate InMap(a: u64, m: Mapping) { m.start <= a < m.end }

  function CompareMap(a: u64, m: Mapping): Ordering {
    if a < m.start then Greater else if a >= m.end then Less else Equal
  }

  function MapOrderings(a: u64, maps: seq<Mapping>): (o: seq<Ordering>)
    ensures |o| == |maps| && forall i :: 0 <= i < |o| ==> o[i] == CompareMap(a, maps[i])
  {
    seq(|maps|, i requires 0 <= i < |maps| => CompareMap(a, maps[i]))
  }

  function FindMap(search: LibrarySearch, a: u64, maps: seq<Mapping>): Option<Mapping> {
    match search(MapOrderings(a, maps))
    case Found(i) => if i < |maps| then Some(maps[i]) else None
    case Missing(_) => None
  }

  function FirstMap(a: u64, maps: seq<Mapping>): Option<Mapping> {
    if maps == [] then None else if InMap(a, maps[0]) then Some(maps[0]) else FirstMap(a, maps[1..])
  }

  /** No two maps share an address, and none is empty or backwards. */
  ghost predicate Disjoint(maps: seq<Mapping>) {
    && (forall i :: 0 <= i < |maps| ==> maps[i].start < maps[i].end)
    && forall i, j :: 0 <= i < j < |maps| ==> maps[i].end <= maps[j].start || maps[j].end <= maps[i].start
  }

  ghost predicate InOrder(maps: seq<Mapping>) {
    forall i, j :: 0 <= i < j < |maps| ==> maps[i].start <= maps[j].start
  }

  function InsertMap(maps: seq<Mapping>, m: Mapping): seq<Mapping> {
    if maps == [] || maps[|maps| - 1].start <= m.start then maps + [m]
    else InsertMap(maps[..|maps| - 1], m) + [maps[|maps| - 1]]
  }

  /** A stable sort by the start of the maps. */
  function SortMaps(maps: seq<Mapping>): seq<Mapping> {
    if maps == [] then [] else InsertMap(SortMaps(maps[..|maps| - 1]), maps[|maps| - 1])
  }

  lemma AppendInOrder(maps: seq<Mapping>, last: Mapping)
    requires InOrder(maps) && forall k :: k in maps ==> k.start <= last.start
    ensures InOrder(maps + [last])
  {
  }

  lemma {:induction false} InsertMapMembers(maps: seq<Mapping>, m: Mapping)
    ensures multiset(InsertMap(maps, m)) == multiset(maps) + multiset{m}
    ensures forall k :: k in InsertMap(maps, m) ==> k in maps || k == m
    decreases |maps|
  {
    if maps == [] || maps[|maps| - 1].start <= m.start {
    } else {
      assert maps == maps[..|maps| - 1] + [maps[|maps| - 1]];
      InsertMapMembers(maps[..|maps| - 1], m);
    }
  }

  lemma {:induction false} InsertMapOrder(maps: seq<Mapping>, m: Mapping)
    requires InOrder(maps)
    ensures InOrder(InsertMap(maps, m))
    decreases |maps|
  {
    if maps == [] || maps[|maps| - 1].start <= m.start {
      AppendInOrder(maps, m);
    } else {
      InsertMapOrder(maps[..|maps| - 1], m);
      InsertMapMembers(maps[..|maps| - 1], m);
      AppendInOrder(InsertMap(maps[..|maps| - 1], m), maps[|maps| - 1]);
    }
  }

  lemma {:induction false} SortMapsSorts(maps: seq<Mapping>)
    ensures InOrder(SortMaps(maps)) && multiset(SortMaps(maps)) == multiset(maps)
    decreases |maps|
  {
    if maps != [] {
      var front, last := maps[..|maps| - 1], maps[|maps| - 1];
      assert maps == front + [last];
      SortMapsSorts(front);
      InsertMapOrder(SortMaps(front), last);
      InsertMapMembers(SortMaps(front), last);
    }
  }

  lemma OrderedMapsPartition(a: u64, maps: seq<Mapping>)
    requires InOrder(maps) && Disjoint(maps)
    ensures Partitioned(MapOrderings(a, maps))
  {
  }

  /** The first map of an address is a map of the address, if there is any. */
  lemma {:induction false} FirstMapIs(a: u64, maps: seq<Mapping>)
    ensures FirstMap(a, maps).None? ==> forall m :: m in maps ==> !InMap(a, m)
    ensures FirstMap(a, maps).Some? ==> FirstMap(a, maps).value in maps && InMap(a, FirstMap(a, maps).value)
    decreases |maps|
  {
    if maps != [] {
      FirstMapIs(a, maps[1..]);
      assert maps == [maps[0]] + maps[1..];
    }
  }

  lemma OneMapEach(a: u64, maps: seq<Mapping>, m: Mapping, k: Mapping)
    requires Disjoint(maps) && m in maps && k in maps && InMap(a, m) && InMap(a, k)
    ensures m == k
  {
    var i :| 0 <= i < |maps| && maps[i] == m;
    var j :| 0 <= j < |maps| && maps[j] == k;
  }

  /** Sorting disjoint maps and halving finds what a scan of the unsorted maps would. */
  lemma MapSearchIsScan(search: LibrarySearch, a: u64, maps: seq<Mapping>)
    requires Faithful(search) && Disjoint(maps)
    ensures FindMap(search, a, SortMaps(maps)) == FirstMap(a, maps)
  {
    hide SortMaps, FirstMap, Disjoint, InOrder, Partitioned;
    var sorted := SortMaps(maps);
    SortMapsSorts(maps);
    FirstMapIs(a, maps);
    SortedDisjoint(maps);
    OrderedMapsPartition(a, sorted);
    var o := MapOrderings(a, sorted);
    assert Answers(o, search(o));
    match search(o)
    case Found(i) =>
      assert sorted[i] in multiset(maps) && InMap(a, sorted[i]);
      OneMapEach(a, maps, sorted[i], FirstMap(a, maps).value);
    case Missing(_) =>
      forall m | m in maps ensures !InMap(a, m) {
        assert m in multiset(sorted);
        var i :| 0 <= i < |sorted| && sorted[i] == m;
        assert o[i] != Equal;
      }
  }

  /** Disjointness does not depend on the order. */
  lemma {:induction false} SortedDisjoint(maps: seq<Mapping>)
    requires Disjoint(maps)
    ensures Disjoint(SortMaps(maps))
    decreases |maps|
  {
    if maps != [] {
      var front, last := maps[..|maps| - 1], maps[|maps| - 1];
      SortedDisjoint(front);
      SortMapsSorts(front);
      forall k | k in SortMaps(front) ensures k.end <= last.start || last.end <= k.start {
        assert k in multiset(front);
        var i :| 0 <= i < |front| && front[i] == k;
        assert maps[i] == k;
      }
      InsertMapDisjoint(SortMaps(front), last);
    }
  }

  lemma AppendDisjoint(maps: seq<Mapping>, last: Mapping)
    requires Disjoint(maps) && last.start < last.end
    requires forall k :: k in maps ==> k.end <= last.start || last.end <= k.start
    ensures Disjoint(maps + [last])
  {
  }

  lemma {:induction false} InsertMapDisjoint(maps: seq<Mapping>, m: Mapping)
    requires Disjoint(maps) && m.start < m.end
    requires forall k :: k in maps ==> k.end <= m.start || m.end <= k.start
    ensures Disjoint(InsertMap(maps, m))
    decreases |maps|
  {
    if maps == [] || maps[|maps| - 1].start <= m.start {
      AppendDisjoint(maps, m);
    } else {
      var front, last := maps[..|maps| - 1], maps[|maps| - 1];
      InsertMapDisjoint(front, m);
      InsertMapMembers(front, m);
      forall k | k in InsertMap(front, m) ensures k.end <= last.start || last.end <= k.start {
        if k != m {
          var i :| 0 <= i < |front| && front[i] == k;
          assert maps[i] == k;
        }
      }
      AppendDisjoint(InsertMap(front, m), last);
    }
  }

  // Symbol tables.

  datatype Symbol = Symbol(base: u64, size: u64, name: string)

  predicate InSymbol(a: u64, s: Symbol) { s.base <= a < Wrap(s.base + s.size) }

  function BaseOrderings(a: u64, symbols: seq<Symbol>): (o: seq<Ordering>)
    ensures |o| == |symbols|
    ensures forall i :: 0 <= i < |o| ==> o[i] == CompareBase(a, symbols[i])
  {
    seq(|symbols|, i requires 0 <= i < |symbols| => CompareBase(a, symbols[i]))
  }

  function CompareBase(a: u64, s: Symbol): Ordering {
    if s.base < a then Less else if s.base == a then Equal else Greater
  }

  /** A symbol with the largest base not above the address, provided the address is inside it. */
  function FindSymbol(search: LibrarySearch, symbols: seq<Symbol>, a: u64): Option<Symbol> {
    var candidate := match search(BaseOrderings(a, symbols))
      case Found(i) => i
      case Missing(pos) => pos - 1;
    if 0 <= candidate < |symbols| && InSymbol(a, symbols[candidate]) then Some(symbols[candidate]) else None
  }

  ghost predicate SortedByBase(symbols: seq<Symbol>) {
    forall i, j :: 0 <= i < j < |symbols| ==> symbols[i].base <= symbols[j].base
  }

  /** A symbol the search may end at: one whose base is the address or, if there is none, the last one whose
  base is below it. */
  ghost predicate Candidate(symbols: seq<Symbol>, a: u64, i: int) {
    && 0 <= i < |symbols| && symbols[i].base <= a
    && (symbols[i].base < a ==>
          forall j :: 0 <= j < |symbols| && j != i ==> if j < i then symbols[j].base < a else symbols[j].base > a)
  }

  ghost predicate HasCandidate(symbols: seq<Symbol>, a: u64) { exists i :: Candidate(symbols, a, i) }

  ghost predicate AllCandidatesContain(symbols: seq<Symbol>, a: u64) {
    forall i :: Candidate(symbols, a, i) ==> InSymbol(a, symbols[i])
  }

  ghost predicate AllCandidatesAnswer(symbols: seq<Symbol>, a: u64, answer: Option<Symbol>) {
    forall i :: Candidate(symbols, a, i) ==> AnswerOf(a, symbols[i]) == answer
  }

  function AnswerOf(a: u64, s: Symbol): Option<Symbol> { if InSymbol(a, s) then Some(s) else None }

  /** Whatever the library search picks, a candidate is what decides; without one nothing is found. */
  lemma CandidateDecides(search: LibrarySearch, symbols: seq<Symbol>, a: u64) returns (i: nat)
    requires Faithful(search) && SortedByBase(symbols)
    ensures (forall j :: !Candidate(symbols, a, j)) || Candidate(symbols, a, i)
    ensures FindSymbol(search, symbols, a) == if Candidate(symbols, a, i) then AnswerOf(a, symbols[i]) else None
  {
    var o := BaseOrderings(a, symbols);
    assert Partitioned(o);
    assert Answers(o, search(o));
    match search(o)
    case Found(k) =>
      assert o[k] == Equal;
      i := k;
    case Missing(pos) =>
      i := if pos == 0 then |symbols| else pos - 1;
      forall j | Candidate(symbols, a, j) ensures pos > 0 && j == pos - 1 {
        assert o[j] != Equal;
      }
  }

  /** Every candidate decides for some faithful search. */
  lemma EveryCandidateDecides(symbols: seq<Symbol>, a: u64, i: nat)
    requires SortedByBase(symbols) && Candidate(symbols, a, i)
    ensures Faithful(PickySearch(i)) && FindSymbol(PickySearch(i), symbols, a) == AnswerOf(a, symbols[i])
  {
    FaithfulExist(i);
    var o := BaseOrderings(a, symbols);
    if symbols[i].base == a {
      assert o[i] == Equal;
    } else {
      var k := CandidateDecides(PickySearch(i), symbols, a);
      assert k == i;
    }
  }

  /** A symbol is found for an address, whatever equal element the library search picks, exactly if there is a
  candidate and all candidates contain the address. */
  lemma FoundExactly(symbols: seq<Symbol>, a: u64)
    requires SortedByBase(symbols)
    ensures (forall search: LibrarySearch :: Faithful(search) ==> FindSymbol(search, symbols, a).Some?)
       <==> HasCandidate(symbols, a) && AllCandidatesContain(symbols, a)
  {
    if forall search: LibrarySearch :: Faithful(search) ==> FindSymbol(search, symbols, a).Some? {
      FaithfulExist(0);
      var k := CandidateDecides(LinearSearch, symbols, a);
      forall i | Candidate(symbols, a, i) ensures InSymbol(a, symbols[i]) {
        EveryCandidateDecides(symbols, a, i);
      }
    }
    if HasCandidate(symbols, a) && AllCandidatesContain(symbols, a) {
      forall search: LibrarySearch | Faithful(search) ensures FindSymbol(search, symbols, a).Some? {
        var k := CandidateDecides(search, symbols, a);
      }
    }
  }

  function FirstSymbol(symbols: seq<Symbol>, a: u64): Option<Symbol> {
    if symbols == [] then None
    else if InSymbol(a, symbols[0]) then Some(symbols[0]) else FirstSymbol(symbols[1..], a)
  }

  lemma {:induction false} FirstSymbolIs(symbols: seq<Symbol>, a: u64)
    ensures FirstSymbol(symbols, a).None? ==> forall s :: s in symbols ==> !InSymbol(a, s)
    ensures FirstSymbol(symbols, a).Some?
        ==> FirstSymbol(symbols, a).value in symbols && InSymbol(a, FirstSymbol(symbols, a).value)
    decreases |symbols|
  {
    if symbols != [] {
      FirstSymbolIs(symbols[1..], a);
      assert symbols == [symbols[0]] + symbols[1..];
    }
  }

  /** Any two symbols are the same, or the first ends before the second starts and does not share its base. */
  ghost predicate DisjointOrSame(symbols: seq<Symbol>) {
    forall i, j :: 0 <= i < j < |symbols|
      ==> || symbols[i] == symbols[j]
          || (symbols[i].base < symbols[j].base && Wrap(symbols[i].base + symbols[i].size) <= symbols[j].base)
  }

  lemma DisjointSorted(symbols: seq<Symbol>)
    requires DisjointOrSame(symbols)
    ensures SortedByBase(symbols)
  {
  }

  /** Halving finds what a scan would, whatever equal element the library search picks, exactly if every
  candidate is what the scan finds, or does not contain the address when the scan finds nothing. */
  lemma ScanExactly(symbols: seq<Symbol>, a: u64)
    requires SortedByBase(symbols)
    ensures (forall search: LibrarySearch :: Faithful(search) ==>
               FindSymbol(search, symbols, a) == FirstSymbol(symbols, a))
       <==> && (FirstSymbol(symbols, a).Some? ==> HasCandidate(symbols, a))
            && AllCandidatesAnswer(symbols, a, FirstSymbol(symbols, a))
  {
    if forall search: LibrarySearch :: Faithful(search) ==> FindSymbol(search, symbols, a) == FirstSymbol(symbols, a) {
      FaithfulExist(0);
      var k := CandidateDecides(LinearSearch, symbols, a);
      forall i | Candidate(symbols, a, i) ensures AnswerOf(a, symbols[i]) == FirstSymbol(symbols, a) {
        EveryCandidateDecides(symbols, a, i);
      }
    }
    if && (FirstSymbol(symbols, a).Some? ==> HasCandidate(symbols, a))
       && AllCandidatesAnswer(symbols, a, FirstSymbol(symbols, a))
    {
      forall search: LibrarySearch | Faithful(search)
        ensures FindSymbol(search, symbols, a) == FirstSymbol(symbols, a)
      {
        var k := CandidateDecides(search, symbols, a);
      }
    }
  }

  /** On a table of disjoint or identical symbols that is so for every address. */
  lemma SymbolSearchIsScan(search: LibrarySearch, symbols: seq<Symbol>, a: u64)
    requires Faithful(search) && DisjointOrSame(symbols)
    ensures FindSymbol(search, symbols, a) == FirstSymbol(symbols, a)
  {
    DisjointSorted(symbols);
    var i := CandidateDecides(search, symbols, a);
    FirstSymbolIs(symbols, a);
    if FirstSymbol(symbols, a).Some? {
      var j := IndexOf(symbols, FirstSymbol(symbols, a).value);
      CandidateFor(symbols, a, j);
      CandidateIsIt(symbols, a, i, j);
    }
  }

  /** An address not below some base has a candidate. */
  lemma {:induction false} CandidateFor(symbols: seq<Symbol>, a: u64, j: nat)
    requires SortedByBase(symbols) && j < |symbols| && symbols[j].base <= a
    ensures exists i :: Candidate(symbols, a, i)
    decreases |symbols| - j
  {
    if symbols[j].base == a || j == |symbols| - 1 || symbols[j + 1].base > a {
      if symbols[j].base < a {
        BelowCandidate(symbols, a, j);
      }
      assert Candidate(symbols, a, j);
    } else {
      CandidateFor(symbols, a, j + 1);
    }
  }

  lemma BelowCandidate(symbols: seq<Symbol>, a: u64, j: nat)
    requires SortedByBase(symbols) && j < |symbols| && symbols[j].base < a
    requires j + 1 < |symbols| ==> symbols[j + 1].base > a
    ensures Candidate(symbols, a, j)
  {
  }

  lemma CandidateIsIt(symbols: seq<Symbol>, a: u64, i: nat, j: nat)
    requires DisjointOrSame(symbols) && j < |symbols| && InSymbol(a, symbols[j]) && Candidate(symbols, a, i)
    ensures symbols[i] == symbols[j]
  {
    assert symbols[j].base <= a;
  }

  /** Halving finds nothing where a scan finds the function, whatever the library search picks: the address is in
  a function, but after a label without a size inside it. */
  lemma SizelessHides(search: LibrarySearch)
    requires Faithful(search)
    ensures var symbols := [Symbol(64, 16, "f"), Symbol(68, 0, "label")];
            FindSymbol(search, symbols, 70) == None && FirstSymbol(symbols, 70) == Some(Symbol(64, 16, "f"))
  {
    var symbols := [Symbol(64, 16, "f"), Symbol(68, 0, "label")];
    assert Candidate(symbols, 70, 1);
    var i := CandidateDecides(search, symbols, 70);
    assert i == 1 && !InSymbol(70, symbols[1]) && InSymbol(70, symbols[0]);
  }

  /** A symbol alone is found for the addresses from its base on, as many as it is long. */
  lemma OneSymbolFound(search: LibrarySearch, s: Symbol, a: u64)
    requires Faithful(search) && s.base + s.size < TWO_64
    ensures FindSymbol(search, [s], a) == if 0 <= a - s.base < s.size then Some(s) else None
  {
    var i := CandidateDecides(search, [s], a);
    assert Candidate([s], a, 0) <==> s.base <= a;
  }

  // Clones of a function carry its name and a suffix.

  const CLONE := " [clone "

  /** Where the suffix starts, or the length of the name. */
  function CloneIndex(name: string): (k: nat)
    ensures k <= |name|
  {
    if name == "" || CLONE <= name then 0 else 1 + CloneIndex(name[1..])
  }

  function StripClone(name: string): string { name[..CloneIndex(name)] }

  lemma PrefixOfPrefix(a: string, b: string, c: string)
    requires b <= c
    ensures a <= b ==> a <= c
  {
    if a <= b {
      assert c[..|a|] == b[..|a|];
    }
  }

  lemma {:induction false} StripCloneAgain(name: string)
    ensures StripClone(StripClone(name)) == StripClone(name)
    decreases |name|
  {
    var short := StripClone(name);
    if short != "" {
      StripCloneAgain(name[1..]);
      assert short[1..] == StripClone(name[1..]);
      PrefixOfPrefix(CLONE, short, name);
    }
  }

  /** A name and the name of any clone of it are the same to the decoder. */
  lemma {:induction false} CloneStripped(name: string, rest: string)
    requires CloneIndex(name + " ") == |name| + 1
    ensures StripClone(name + CLONE + rest) == name == StripClone(name)
    decreases |name|
  {
    var clone := name + CLONE + rest;
    if name == "" {
      assert clone == CLONE + rest;
    } else {
      var tail := name[1..];
      assert (name + " ")[1..] == tail + " ";
      assert !(CLONE <= name + " ") && CloneIndex(tail + " ") == |tail| + 1;
      CloneStripped(tail, rest);
      assert clone[1..] == tail + CLONE + rest;
      if CLONE <= clone {
        NoCloneInside(name, rest);
      }
      PrefixOfPrefix(CLONE, name, name + " ");
    }
  }

  lemma SpacesInClone(k: nat)
    requires k < |CLONE|
    ensures CLONE[k] == ' ' <==> k == 0 || k == 7
  {
  }

  lemma NoCloneInside(name: string, rest: string)
    requires name != "" && CLONE <= name + CLONE + rest
    ensures CLONE <= name + " "
  {
    var clone := name + CLONE + rest;
    assert clone[|name|] == CLONE[0];
    SpacesInClone(0);
    SpacesInClone(if |name| < 8 then |name| else 0);
    assert |name| < 8 ==> CLONE[|name|] == clone[|name|];
    assert |name| >= 7;
    assert (name + " ")[..|CLONE|] == clone[..|CLONE|];
  }

  // Executable files.

  datatype Header = Header(offset: u64, filesz: u64, vaddr: u64, memsz: u64)

  datatype Location = Location(file: string, line: nat)

  /** What the libraries read from an executable: its program headers, its symbols by base, and what its
  debug information says of an address. */
  datatype Binary =
    Binary(headers: seq<Header>, symbols: seq<Symbol>, lines: map<u64, Location>, frames: map<u64, string>)

  type Files = map<string, Binary>

  datatype SymInfo = SymInfo(func: string, at: Location, executable: string, staticAddr: u64, size: u64)

  const NOWHERE: Location := Location("??", 0)
  const UNKNOWN_INFO: SymInfo := SymInfo("??", NOWHERE, "??", 0, 0)

  predicate InHeader(offset: u64, h: Header) { h.offset <= offset < Wrap(h.offset + h.filesz) }

  function FirstHeader(headers: seq<Header>, offset: u64): Option<Header> {
    if headers == [] then None
    else if InHeader(offset, headers[0]) then Some(headers[0]) else FirstHeader(headers[1..], offset)
  }

  /** The static address of a mapping's first byte. */
  function VaddrOffset(headers: seq<Header>, offset: u64): Option<u64> {
    match FirstHeader(headers, offset)
    case None => None
    case Some(h) => Some(Wrap(offset - h.offset + h.vaddr))
  }

  function Lines(b: Binary, a: u64): Location { if a in b.lines then b.lines[a] else NOWHERE }

  function Frame(b: Binary, a: u64): string { if a in b.frames then b.frames[a] else "??" }

  /** What is said of a static address once its symbol, if any, is known. */
  function Describe(path: string, b: Binary, staticAddr: u64, symbol: Option<Symbol>): SymInfo {
    match symbol
    case Some(s) => SymInfo(StripClone(s.name), Lines(b, s.base), path, s.base, s.size)
    case None => SymInfo(StripClone(Frame(b, staticAddr)), Lines(b, staticAddr), path, staticAddr, 0)
  }

  predicate HasFile(files: Files, m: Mapping) { m.path.Some? && m.path.value in files }

  function OffsetOf(files: Files, m: Mapping): Option<u64> {
    if HasFile(files, m) then VaddrOffset(files[m.path.value].headers, m.offset) else None
  }

  function StaticAddr(a: u64, m: Mapping, vaddrOffset: u64): u64 { Wrap(a - m.start + vaddrOffset) }

  /** Symbolization of one address from scratch. */
  function Symbolize(search: LibrarySearch, files: Files, maps: seq<Mapping>, a: u64): SymInfo {
    var found := FindMap(search, a, maps);
    if found.None? || OffsetOf(files, found.value).None? then UNKNOWN_INFO
    else
      var m := found.value;
      var b, place := files[m.path.value], StaticAddr(a, m, OffsetOf(files, m).value);
      Describe(m.path.value, b, place, FindSymbol(search, b.symbols, place))
  }

  /** The same by scanning lists. */
  function SymbolizeByScan(files: Files, maps: seq<Mapping>, a: u64): SymInfo {
    var found := FirstMap(a, maps);
    if found.None? || OffsetOf(files, found.value).None? then UNKNOWN_INFO
    else
      var m := found.value;
      var b, place := files[m.path.value], StaticAddr(a, m, OffsetOf(files, m).value);
      Describe(m.path.value, b, place, FirstSymbol(b.symbols, place))
  }

  lemma SymbolizeIsScan(search: LibrarySearch, files: Files, maps: seq<Mapping>, a: u64)
    requires Faithful(search) && Disjoint(maps)
    requires forall p :: p in files ==> DisjointOrSame(files[p].symbols)
    ensures Symbolize(search, files, SortMaps(maps), a) == SymbolizeByScan(files, maps, a)
  {
    MapSearchIsScan(search, a, maps);
    var found := FirstMap(a, maps);
    if found.Some? && OffsetOf(files, found.value).Some? {
      var m := found.value;
      var b, place := files[m.path.value], StaticAddr(a, m, OffsetOf(files, m).value);
      SymbolSearchIsScan(search, b.symbols, place);
    }
  }

  /** A header alone translates as many offsets as it has bytes in the file. */
  lemma OneHeader(h: Header, offset: u64)
    requires h.offset + h.filesz < TWO_64 && h.vaddr + h.filesz <= TWO_64
    ensures VaddrOffset([h], offset)
         == if 0 <= offset - h.offset < h.filesz then Some(h.vaddr + (offset - h.offset)) else None
  {
    assert FirstHeader([h][1..], offset) == None;
    assert FirstHeader([h], offset) == if InHeader(offset, h) then Some(h) else None;
    if InHeader(offset, h) {
      WrapNone(offset - h.offset + h.vaddr);
    }
  }

  lemma WrapNone(n: nat)
    requires n < TWO_64
    ensures Wrap(n) == n
  {
  }

  // Maps written by the runtime.

  /** The line written for an executable segment loaded at `bias`. */
  function SegmentMap(bias: u64, h: Header, path: string): Mapping {
    Mapping(Wrap(bias + h.vaddr), Wrap(Wrap(bias + h.vaddr) + h.memsz), h.offset, Some(path))
  }

  /** It holds just the addresses the segment takes up in memory. */
  lemma SegmentHolds(bias: u64, h: Header, path: string, a: u64)
    requires bias + h.vaddr + h.memsz < TWO_64
    ensures InMap(a, SegmentMap(bias, h, path)) <==> 0 <= a - bias - h.vaddr < h.memsz
  {
    WrapNone(bias + h.vaddr);
    WrapNone(bias + h.vaddr + h.memsz);
  }

  lemma WrapSame(x: int, y: int)
    ensures Wrap(x) == Wrap(y) <==> (x - y) % TWO_64 == 0
  {
  }

  lemma WrapMultiple(z: int, k: int)
    ensures (z + TWO_64 * k) % TWO_64 == z % TWO_64
  {
  }

  lemma Shifts(a: int, bias: int, start: u64, place: u64, hv: int, ho: int, gv: int, go: int)
    requires start == Wrap(bias + hv) && place == Wrap(ho - go + gv)
    ensures Wrap(a - start + place) == Wrap(a - bias) <==> Wrap(gv - go) == Wrap(hv - ho)
  {
    var j, k := (bias + hv) / TWO_64, (ho - go + gv) / TWO_64;
    WrapSame(a - start + place, a - bias);
    WrapSame(gv - go, hv - ho);
    assert a - start + place - (a - bias) == gv - go - (hv - ho) + TWO_64 * (j - k);
    WrapMultiple(gv - go - (hv - ho), j - k);
  }

  /** An address in the segment comes out as the address less the load bias exactly if the first header
  that holds the segment's file offset has its distance between file offsets and addresses. */
  lemma SegmentTranslates(files: Files, bias: u64, h: Header, path: string, a: u64)
    requires path in files
    ensures var m, first := SegmentMap(bias, h, path), FirstHeader(files[path].headers, h.offset);
            && (OffsetOf(files, m).None? <==> first.None?)
            && (first.Some? ==> (StaticAddr(a, m, OffsetOf(files, m).value) == Wrap(a - bias)
                                 <==> Wrap(first.value.vaddr - first.value.offset) == Wrap(h.vaddr - h.offset)))
  {
    var m, first := SegmentMap(bias, h, path), FirstHeader(files[path].headers, h.offset);
    if first.Some? {
      var g := first.value;
      Shifts(a, bias, m.start, OffsetOf(files, m).value, h.vaddr, h.offset, g.vaddr, g.offset);
    }
  }

  lemma {:induction false} FirstHeaderIs(headers: seq<Header>, offset: u64)
    ensures FirstHeader(headers, offset).None? ==> forall h :: h in headers ==> !InHeader(offset, h)
    ensures FirstHeader(headers, offset).Some?
        ==> FirstHeader(headers, offset).value in headers && InHeader(offset, FirstHeader(headers, offset).value)
    decreases |headers|
  {
    if headers != [] {
      FirstHeaderIs(headers[1..], offset);
      assert headers == [headers[0]] + headers[1..];
    }
  }

  /** A traced address of a segment is given the function the file's symbols have for it. */
  lemma SegmentNamed(search: LibrarySearch, files: Files, maps: seq<Mapping>, bias: u64, h: Header, path: string,
                     a: u64, s: Symbol)
    requires Faithful(search)
    requires Disjoint(maps) && SegmentMap(bias, h, path) in maps && InMap(a, SegmentMap(bias, h, path))
    requires path in files && h in files[path].headers && InHeader(h.offset, h)
    requires forall g :: g in files[path].headers && InHeader(h.offset, g)
                         ==> Wrap(g.vaddr - g.offset) == Wrap(h.vaddr - h.offset)
    requires DisjointOrSame(files[path].symbols) && s in files[path].symbols && InSymbol(Wrap(a - bias), s)
    ensures Symbolize(search, files, SortMaps(maps), a)
         == SymInfo(StripClone(s.name), Lines(files[path], s.base), path, s.base, s.size)
  {
    hide DisjointOrSame, Faithful, Disjoint, SortMaps, FirstMap, FirstSymbol, FirstHeader, FindSymbol, FindMap;
    var m, b := SegmentMap(bias, h, path), files[path];
    MapSearchIsScan(search, a, maps);
    FirstMapIs(a, maps);
    OneMapEach(a, maps, m, FirstMap(a, maps).value);
    FirstHeaderIs(b.headers, h.offset);
    SegmentTranslates(files, bias, h, path, a);
    SymbolSearchIsScan(search, b.symbols, Wrap(a - bias));
    OneSymbolEach(b.symbols, Wrap(a - bias), s);
  }

  /** An address of a segment in none of the file's symbols is given the function, if any, that debug information
  has there, without a size. */
  lemma SegmentUnnamed(search: LibrarySearch, files: Files, maps: seq<Mapping>, bias: u64, h: Header, path: string,
                       a: u64)
    requires Faithful(search)
    requires Disjoint(maps) && SegmentMap(bias, h, path) in maps && InMap(a, SegmentMap(bias, h, path))
    requires path in files && h in files[path].headers && InHeader(h.offset, h)
    requires forall g :: g in files[path].headers && InHeader(h.offset, g)
                         ==> Wrap(g.vaddr - g.offset) == Wrap(h.vaddr - h.offset)
    requires DisjointOrSame(files[path].symbols)
    requires forall s :: s in files[path].symbols ==> !(s.base <= Wrap(a - bias) < Wrap(s.base + s.size))
    ensures var place, b := Wrap(a - bias), files[path];
            Symbolize(search, files, SortMaps(maps), a)
            == SymInfo(if place in b.frames then StripClone(b.frames[place]) else "??",
                       if place in b.lines then b.lines[place] else Location("??", 0), path, place, 0)
  {
    hide DisjointOrSame, Faithful, Disjoint, SortMaps, FirstMap, FirstSymbol, FirstHeader, FindSymbol, FindMap;
    var m, b := SegmentMap(bias, h, path), files[path];
    MapSearchIsScan(search, a, maps);
    FirstMapIs(a, maps);
    OneMapEach(a, maps, m, FirstMap(a, maps).value);
    FirstHeaderIs(b.headers, h.offset);
    SegmentTranslates(files, bias, h, path, a);
    SymbolSearchIsScan(search, b.symbols, Wrap(a - bias));
    FirstSymbolIs(b.symbols, Wrap(a - bias));
    NoCloneInUnknown();
  }

  lemma NoCloneInUnknown()
    ensures StripClone("??") == "??"
  {
    assert !(CLONE <= "??") && !(CLONE <= "??"[1..]) && "??"[1..][1..] == "";
    assert CloneIndex("??"[1..]) == 1 + CloneIndex("");
  }

  lemma SameSymbol(symbols: seq<Symbol>, a: u64, i: nat, j: nat)
    requires DisjointOrSame(symbols) && i < |symbols| && j < |symbols|
    requires InSymbol(a, symbols[i]) && InSymbol(a, symbols[j])
    ensures symbols[i] == symbols[j]
  {
  }

  lemma OneSymbolEach(symbols: seq<Symbol>, a: u64, s: Symbol)
    requires DisjointOrSame(symbols) && s in symbols && InSymbol(a, s)
    ensures FirstSymbol(symbols, a) == Some(s)
  {
    FirstSymbolIs(symbols, a);
    var t := FirstSymbol(symbols, a).value;
    var i, j := IndexOf(symbols, s), IndexOf(symbols, t);
    SameSymbol(symbols, a, i, j);
  }

  ghost function IndexOf(symbols: seq<Symbol>, s: Symbol): (i: nat)
    requires s in symbols
    ensures i < |symbols| && symbols[i] == s
  {
    if symbols[0] == s then 0
    else
      assert symbols == [symbols[0]] + symbols[1..];
      1 + IndexOf(symbols[1..], s)
  }
}
