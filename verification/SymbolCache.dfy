/** The symbolizer with its caches: parsed executables, missing ones, and the offset of each map. */
module SymbolCache {
  import opened Events
  import opened Search
  import opened Symbols

  /** A map that the search finds for some address, of a file that can be read. */
  ghost predicate Finds(search: LibrarySearch, files: Files, maps: seq<Mapping>, a: u64, m: Mapping) {
    FindMap(search, a, maps) == Some(m) && HasFile(files, m)
  }

  /** Maps that are found and start together translate alike: offsets are cached by the start of the map alone. */
  ghost predicate OneOffsetPerStart(search: LibrarySearch, files: Files, maps: seq<Mapping>) {
    forall a: u64, b: u64, m, k ::
      && Finds(search, files, maps, a, m) && Finds(search, files, maps, b, k)
      && m.start == k.start && OffsetOf(files, m).Some?
      ==> OffsetOf(files, k) == OffsetOf(files, m)
  }

  lemma DisjointStarts(search: LibrarySearch, files: Files, maps: seq<Mapping>)
    requires Disjoint(maps)
    ensures OneOffsetPerStart(search, files, SortMaps(maps))
  {
    SortedDisjoint(maps);
    var sorted := SortMaps(maps);
    forall a: u64, b: u64, m, k
      | Finds(search, files, sorted, a, m) && Finds(search, files, sorted, b, k) && m.start == k.start
      ensures m == k
    {
      FoundIn(search, files, sorted, a, m);
      FoundIn(search, files, sorted, b, k);
      OneMapEach(m.start, sorted, m, k);
    }
  }

  lemma FoundIn(search: LibrarySearch, files: Files, maps: seq<Mapping>, a: u64, m: Mapping)
    requires Finds(search, files, maps, a, m)
    ensures m in maps
  {
  }

  // What lookups answer with the cache, whatever is in it.

  type Offsets = map<u64, u64>

  function CachedOffset(files: Files, m: Mapping, offsets: Offsets): Option<u64> {
    if m.start in offsets then Some(offsets[m.start]) else OffsetOf(files, m)
  }

  function CachedAnswer(search: LibrarySearch, files: Files, maps: seq<Mapping>, offsets: Offsets, a: u64): SymInfo {
    var found := FindMap(search, a, maps);
    if found.None? || !HasFile(files, found.value) || CachedOffset(files, found.value, offsets).None? then UNKNOWN_INFO
    else
      var m := found.value;
      var b, place := files[m.path.value], StaticAddr(a, m, CachedOffset(files, m, offsets).value);
      Describe(m.path.value, b, place, FindSymbol(search, b.symbols, place))
  }

  function OffsetsAfter(search: LibrarySearch, files: Files, maps: seq<Mapping>, offsets: Offsets, a: u64): Offsets {
    var found := FindMap(search, a, maps);
    if found.None? then offsets else WithOffset(files, found.value, offsets)
  }

  function WithOffset(files: Files, m: Mapping, offsets: Offsets): Offsets {
    if HasFile(files, m) && m.start !in offsets && OffsetOf(files, m).Some? then
      offsets[m.start := OffsetOf(files, m).value]
    else offsets
  }

  /** What is cached is right for every map that can be found. */
  ghost predicate OffsetsRight(search: LibrarySearch, files: Files, maps: seq<Mapping>, offsets: Offsets) {
    forall a: u64, m :: Finds(search, files, maps, a, m) && m.start in offsets ==>
      OffsetOf(files, m) == Some(offsets[m.start])
  }

  /** With one offset per start, right offsets give the answer from scratch, and stay right. */
  lemma OffsetsStayRight(search: LibrarySearch, files: Files, maps: seq<Mapping>, offsets: Offsets, a: u64)
    requires OneOffsetPerStart(search, files, maps) && OffsetsRight(search, files, maps, offsets)
    ensures CachedAnswer(search, files, maps, offsets, a) == Symbolize(search, files, maps, a)
    ensures OffsetsRight(search, files, maps, OffsetsAfter(search, files, maps, offsets, a))
  {
    hide FindMap, VaddrOffset, StaticAddr, Describe, FindSymbol;
    var found := FindMap(search, a, maps);
    if found.Some? && HasFile(files, found.value) {
      assert Finds(search, files, maps, a, found.value);
    }
  }

  /** The offset a question is answered with, None if there is none. */
  function OffsetUsed(search: LibrarySearch, files: Files, maps: seq<Mapping>, offsets: Offsets, a: u64): Option<u64> {
    var found := FindMap(search, a, maps);
    if found.None? || !HasFile(files, found.value) then None else CachedOffset(files, found.value, offsets)
  }

  /** The offsets cached after the questions. */
  function OffsetsAsked(search: LibrarySearch, files: Files, maps: seq<Mapping>, asked: seq<u64>): Offsets {
    if asked == [] then map[]
    else
      var m := |asked| - 1;
      OffsetsAfter(search, files, maps, OffsetsAsked(search, files, maps, asked[..m]), asked[m])
  }

  /** Whatever was asked before, questions are answered with the offsets they would be answered with first. */
  ghost predicate NeverShows(search: LibrarySearch, files: Files, maps: seq<Mapping>) {
    forall asked, a ::
      OffsetUsed(search, files, maps, OffsetsAsked(search, files, maps, asked), a)
      == OffsetUsed(search, files, maps, map[], a)
  }

  lemma {:induction false} AskedRight(search: LibrarySearch, files: Files, maps: seq<Mapping>, asked: seq<u64>)
    requires OneOffsetPerStart(search, files, maps)
    ensures OffsetsRight(search, files, maps, OffsetsAsked(search, files, maps, asked))
    decreases |asked|
  {
    hide OneOffsetPerStart, OffsetsAfter;
    if asked == [] {
      NothingCached(search, files, maps);
    } else {
      var m := |asked| - 1;
      AskedRight(search, files, maps, asked[..m]);
      OffsetsStayRight(search, files, maps, OffsetsAsked(search, files, maps, asked[..m]), asked[m]);
    }
  }

  lemma AskedOnce(search: LibrarySearch, files: Files, maps: seq<Mapping>, a: u64, m: Mapping)
    requires Finds(search, files, maps, a, m) && OffsetOf(files, m).Some?
    ensures OffsetsAsked(search, files, maps, [a]) == map[m.start := OffsetOf(files, m).value]
  {
    hide FindMap, OffsetOf, HasFile;
    assert [a][..0] == [];
    assert OffsetsAsked(search, files, maps, []) == map[];
  }

  lemma UsedFor(search: LibrarySearch, files: Files, maps: seq<Mapping>, offsets: Offsets, a: u64, m: Mapping)
    requires Finds(search, files, maps, a, m)
    ensures OffsetUsed(search, files, maps, offsets, a) == CachedOffset(files, m, offsets)
  {
  }

  /** The cache of offsets never shows exactly if maps that are found and start together translate alike. */
  lemma ShowsExactly(search: LibrarySearch, files: Files, maps: seq<Mapping>)
    ensures NeverShows(search, files, maps) <==> OneOffsetPerStart(search, files, maps)
  {
    hide FindMap, OffsetOf, OffsetsAsked, OffsetUsed, HasFile, Finds;
    if NeverShows(search, files, maps) {
      forall a: u64, b: u64, m, k
        | && Finds(search, files, maps, a, m) && Finds(search, files, maps, b, k)
          && m.start == k.start && OffsetOf(files, m).Some?
        ensures OffsetOf(files, k) == OffsetOf(files, m)
      {
        var offsets := OffsetsAsked(search, files, maps, [a]);
        AskedOnce(search, files, maps, a, m);
        UsedFor(search, files, maps, offsets, b, k);
        UsedFor(search, files, maps, map[], b, k);
        assert OffsetUsed(search, files, maps, offsets, b) == OffsetUsed(search, files, maps, map[], b);
      }
    }
    if OneOffsetPerStart(search, files, maps) {
      forall asked, a
        ensures OffsetUsed(search, files, maps, OffsetsAsked(search, files, maps, asked), a)
             == OffsetUsed(search, files, maps, map[], a)
      {
        AskedRight(search, files, maps, asked);
        RightUsed(search, files, maps, OffsetsAsked(search, files, maps, asked), a);
      }
    }
  }

  lemma RightUsed(search: LibrarySearch, files: Files, maps: seq<Mapping>, offsets: Offsets, a: u64)
    requires OffsetsRight(search, files, maps, offsets)
    ensures OffsetUsed(search, files, maps, offsets, a) == OffsetUsed(search, files, maps, map[], a)
  {
    hide FindMap, OffsetOf, HasFile;
    var found := FindMap(search, a, maps);
    if found.Some? && HasFile(files, found.value) {
      assert Finds(search, files, maps, a, found.value);
    }
  }

  class ProcAddr2Sym {
    const search: LibrarySearch
    const files: Files
    var maps: seq<Mapping>
    var symCache: map<string, Binary>
    var symMissing: set<string>
    var offsetCache: Offsets

    constructor (search: LibrarySearch, files: Files)
      ensures Valid() && this.search == search && this.files == files && maps == [] && offsetCache == map[]
    {
      this.search, this.files := search, files;
      maps, symCache, symMissing, offsetCache := [], map[], {}, map[];
    }

    ghost predicate Valid()
      reads this
    {
      && (forall p :: p in symCache ==> p in files && symCache[p] == files[p])
      && (forall p :: p in symMissing ==> p !in files)
    }

    /** Parsed executables stay; the offsets of the old maps are forgotten. */
    method SetProcMaps(parsed: seq<Mapping>)
      requires Valid()
      modifies this
      ensures Valid() && maps == SortMaps(parsed) && offsetCache == map[]
      ensures symCache == old(symCache) && symMissing == old(symMissing)
    {
      maps := SortMaps(parsed);
      offsetCache := map[];
    }

    /** The first header that holds the offset. */
    static method FindHeader(headers: seq<Header>, offset: u64) returns (found: Option<u64>)
      ensures found == VaddrOffset(headers, offset)
    {
      var i := 0;
      while i < |headers|
        invariant 0 <= i <= |headers| && VaddrOffset(headers, offset) == VaddrOffset(headers[i..], offset)
      {
        var h := headers[i];
        if h.offset <= offset < Wrap(h.offset + h.filesz) {
          return Some(Wrap(offset - h.offset + h.vaddr));
        }
        i := i + 1;
      }
      return None;
    }

    method ReadFile(path: string) returns (found: bool)
      requires Valid()
      modifies this`symCache, this`symMissing
      ensures Valid() && (found <==> path in files) && (found ==> path in symCache)
    {
      if path in symMissing { return false; }
      if path !in symCache {
        if path !in files {
          symMissing := symMissing + {path};
          return false;
        }
        symCache := symCache[path := files[path]];
      }
      return true;
    }

    method CacheOffset(m: Mapping, headers: seq<Header>) returns (found: bool)
      requires HasFile(files, m) && headers == files[m.path.value].headers
      modifies this`offsetCache
      ensures offsetCache == WithOffset(files, m, old(offsetCache))
      ensures (found <==> CachedOffset(files, m, old(offsetCache)).Some?) && (found ==> m.start in offsetCache)
    {
      if m.start !in offsetCache {
        var v := FindHeader(headers, m.offset);
        if v.None? { return false; }
        offsetCache := offsetCache[m.start := v.value];
      }
      return true;
    }

    method Lookup(a: u64) returns (info: SymInfo)
      requires Valid()
      modifies this`symCache, this`symMissing, this`offsetCache
      ensures Valid()
      ensures info == CachedAnswer(search, files, maps, old(offsetCache), a)
      ensures offsetCache == OffsetsAfter(search, files, maps, old(offsetCache), a)
    {
      var mapping := FindMap(search, a, maps);
      if mapping.None? || mapping.value.path.None? { return UNKNOWN_INFO; }
      var m, path := mapping.value, mapping.value.path.value;
      var known := ReadFile(path);
      if !known { return UNKNOWN_INFO; }
      var meta := symCache[path];
      known := CacheOffset(m, meta.headers);
      if !known { return UNKNOWN_INFO; }
      var place := StaticAddr(a, m, offsetCache[m.start]);
      info := Describe(path, meta, place, FindSymbol(search, meta.symbols, place));
    }
  }

  // Any run of the symbolizer.

  datatype Request = Maps(parsed: seq<Mapping>) | Ask(address: u64)

  /** The maps in force after the requests. */
  function MapsAfter(requests: seq<Request>): seq<Mapping> {
    if requests == [] then []
    else
      match requests[|requests| - 1]
      case Maps(parsed) => SortMaps(parsed)
      case Ask(_) => MapsAfter(requests[..|requests| - 1])
  }

  /** The offsets cached after the requests. */
  function OffsetsThen(search: LibrarySearch, files: Files, requests: seq<Request>): Offsets {
    if requests == [] then map[]
    else
      var front, last := requests[..|requests| - 1], requests[|requests| - 1];
      match last
      case Maps(_) => map[]
      case Ask(a) => OffsetsAfter(search, files, MapsAfter(front), OffsetsThen(search, files, front), a)
  }

  /** Every question answered with what is cached by then. */
  function Cached(search: LibrarySearch, files: Files, requests: seq<Request>): seq<SymInfo> {
    if requests == [] then []
    else
      var front, last := requests[..|requests| - 1], requests[|requests| - 1];
      match last
      case Maps(_) => Cached(search, files, front)
      case Ask(a) =>
        Cached(search, files, front)
        + [CachedAnswer(search, files, MapsAfter(front), OffsetsThen(search, files, front), a)]
  }

  /** Every question answered from scratch. */
  function Uncached(search: LibrarySearch, files: Files, requests: seq<Request>): seq<SymInfo> {
    if requests == [] then []
    else
      var front, last := requests[..|requests| - 1], requests[|requests| - 1];
      match last
      case Maps(_) => Uncached(search, files, front)
      case Ask(a) => Uncached(search, files, front) + [Symbolize(search, files, MapsAfter(front), a)]
  }

  method Serve(search: LibrarySearch, files: Files, requests: seq<Request>) returns (answers: seq<SymInfo>)
    ensures answers == Cached(search, files, requests)
  {
    var symbolizer := new ProcAddr2Sym(search, files);
    answers := [];
    for k := 0 to |requests|
      invariant fresh(symbolizer) && symbolizer.Valid() && symbolizer.search == search && symbolizer.files == files
      invariant symbolizer.maps == MapsAfter(requests[..k])
      invariant symbolizer.offsetCache == OffsetsThen(search, files, requests[..k])
      invariant answers == Cached(search, files, requests[..k])
    {
      assert requests[..k + 1][..k] == requests[..k];
      match requests[k] {
        case Maps(parsed) =>
          symbolizer.SetProcMaps(parsed);
        case Ask(a) =>
          var info := symbolizer.Lookup(a);
          answers := answers + [info];
      }
    }
    assert requests[..|requests|] == requests;
  }

  ghost predicate OneOffsetAlways(search: LibrarySearch, files: Files, requests: seq<Request>) {
    forall k :: 0 <= k < |requests| && requests[k].Maps? ==>
      OneOffsetPerStart(search, files, SortMaps(requests[k].parsed))
  }

  /** However questions and new maps are interleaved, the caches do not show, as long as maps that start together
  are of the same place. */
  lemma {:induction false} CachesInvisible(search: LibrarySearch, files: Files, requests: seq<Request>)
    requires OneOffsetAlways(search, files, requests)
    ensures Cached(search, files, requests) == Uncached(search, files, requests)
    ensures OneOffsetPerStart(search, files, MapsAfter(requests))
    ensures OffsetsRight(search, files, MapsAfter(requests), OffsetsThen(search, files, requests))
    decreases |requests|
  {
    hide OneOffsetPerStart, CachedAnswer, Symbolize, OffsetsAfter;
    if requests == [] {
      NothingCached(search, files, []);
      NoMaps(search, files);
    } else {
      var front, last := requests[..|requests| - 1], requests[|requests| - 1];
      assert forall k :: 0 <= k < |front| ==> front[k] == requests[k];
      CachesInvisible(search, files, front);
      match last
      case Maps(parsed) => NothingCached(search, files, SortMaps(parsed));
      case Ask(a) => OffsetsStayRight(search, files, MapsAfter(front), OffsetsThen(search, files, front), a);
    }
  }

  lemma NothingCached(search: LibrarySearch, files: Files, maps: seq<Mapping>)
    ensures OffsetsRight(search, files, maps, map[])
  {
  }

  lemma NoMaps(search: LibrarySearch, files: Files)
    ensures OneOffsetPerStart(search, files, [])
  {
  }

  /** The maps of a process are disjoint, so there the caches never show. */
  lemma DisjointInvisible(search: LibrarySearch, files: Files, requests: seq<Request>)
    requires forall k :: 0 <= k < |requests| && requests[k].Maps? ==> Disjoint(requests[k].parsed)
    ensures Cached(search, files, requests) == Uncached(search, files, requests)
  {
    hide Disjoint, OneOffsetPerStart;
    forall k | 0 <= k < |requests| && requests[k].Maps?
      ensures OneOffsetPerStart(search, files, SortMaps(requests[k].parsed))
    {
      DisjointStarts(search, files, requests[k].parsed);
    }
    CachesInvisible(search, files, requests);
  }

  // Two maps of different places that start together.

  const SHORT: Mapping := Mapping(0, 16, 0, Some("a.out"))
  const LONG: Mapping := Mapping(0, 32, 4096, Some("a.out"))
  const A_OUT: Binary := Binary([Header(0, 16, 0, 16), Header(4096, 16, 5000, 16)], [], map[], map[])
  const ONE_FILE: Files := map["a.out" := A_OUT]

  /** The address in the longer map is asked for first; its offset is then taken for the shorter one's. */
  lemma OverlapShows()
    ensures var requests := [Maps([SHORT, LONG]), Ask(20), Ask(4)];
            && Faithful(PickySearch(0))
            && |Cached(PickySearch(0), ONE_FILE, requests)| == 2
            && |Uncached(PickySearch(0), ONE_FILE, requests)| == 2
            && Cached(PickySearch(0), ONE_FILE, requests)[1].staticAddr == 5004
            && Uncached(PickySearch(0), ONE_FILE, requests)[1].staticAddr == 4
  {
    hide SortMaps, CachedAnswer, Symbolize, Cached, Uncached, FindMap;
    var maps := [SHORT, LONG];
    FaithfulExist(0);
    PairSorted(SHORT, LONG);
    TwoAsks(PickySearch(0), ONE_FILE, maps, 20, 4);
    PickedMaps();
    OffsetsOfBoth();
    Answered(maps, map[0 := 5000], 4, SHORT, 5000);
    Answered(maps, map[], 4, SHORT, 0);
    assert OffsetsAfter(PickySearch(0), ONE_FILE, maps, map[], 20) == map[0 := 5000];
  }

  lemma PairSorted(m: Mapping, k: Mapping)
    requires m.start <= k.start
    ensures SortMaps([m, k]) == [m, k]
  {
    assert [m, k][..1] == [m] && [m][..0] == [];
    assert SortMaps([m]) == InsertMap([], m) == [m];
    assert InsertMap([m], k) == [m] + [k];
  }

  lemma TwoAsks(search: LibrarySearch, files: Files, parsed: seq<Mapping>, a: u64, b: u64)
    ensures var requests, maps := [Maps(parsed), Ask(a), Ask(b)], SortMaps(parsed);
            && Cached(search, files, requests)
               == [CachedAnswer(search, files, maps, map[], a),
                   CachedAnswer(search, files, maps, OffsetsAfter(search, files, maps, map[], a), b)]
            && Uncached(search, files, requests)
               == [Symbolize(search, files, maps, a), Symbolize(search, files, maps, b)]
  {
    hide SortMaps, CachedAnswer, Symbolize, OffsetsAfter;
    var r1, r2 := [Maps(parsed)], [Maps(parsed), Ask(a)];
    assert [Maps(parsed), Ask(a), Ask(b)][..2] == r2 && r2[..1] == r1 && r1[..0] == [];
    assert Cached(search, files, r1) == Cached(search, files, []) == [];
    assert Uncached(search, files, r1) == Uncached(search, files, []) == [];
    assert MapsAfter(r2) == MapsAfter(r1) == SortMaps(parsed);
  }

  lemma PickedMaps()
    ensures FindMap(PickySearch(0), 20, [SHORT, LONG]) == Some(LONG)
    ensures FindMap(PickySearch(0), 4, [SHORT, LONG]) == Some(SHORT)
  {
    assert MapOrderings(20, [SHORT, LONG]) == [Less, Equal] && MapOrderings(4, [SHORT, LONG]) == [Equal, Equal];
    assert LinearFrom([Less, Equal], 1) == Found(1) && LinearSearch([Less, Equal]) == Found(1);
  }

  lemma Answered(maps: seq<Mapping>, offsets: Offsets, a: u64, m: Mapping, v: u64)
    requires maps == [SHORT, LONG] && FindMap(PickySearch(0), a, maps) == Some(m)
    requires HasFile(ONE_FILE, m) && m.start == 0
    requires CachedOffset(ONE_FILE, m, offsets) == Some(v) && a + v < TWO_64
    ensures CachedAnswer(PickySearch(0), ONE_FILE, maps, offsets, a).staticAddr == a + v
    ensures offsets == map[] ==> Symbolize(PickySearch(0), ONE_FILE, maps, a).staticAddr == a + v
  {
    hide FindMap;
  }

  lemma OffsetsOfBoth()
    ensures OffsetOf(ONE_FILE, SHORT) == Some(0) && OffsetOf(ONE_FILE, LONG) == Some(5000)
  {
    assert A_OUT.headers[1..] == [Header(4096, 16, 5000, 16)];
  }
}
