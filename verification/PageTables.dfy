/** The two-level page tables of funcount, proved to hold a `Histogram.Table`. */
module PageTables {
  import opened Events
  import opened Search
  import opened Histogram

  const FANOUT := 0x1_0000

  function HighBits(addr: u64): nat { addr / 0x1_0000_0000 }

  function MidBits(addr: u64): nat { addr / 0x1_0000 % 0x1_0000 }

  function LowBits(addr: u64): nat { addr % 0x1_0000 }

  lemma BitsOfPage(addr: u64)
    ensures HighBits(addr) == PageOf(addr) / FANOUT && MidBits(addr) == PageOf(addr) % FANOUT
    ensures LowBits(addr) / BUCKET == BucketOf(addr)
  {
  }

  type Level1 = map<nat, seq<u64>>

  type Level2 = map<nat, Level1>

  /** The page reached through the two levels. */
  function Lookup(pages: Level2, p: nat): Option<seq<u64>> {
    var hi, mid := p / FANOUT, p % FANOUT;
    if hi in pages && mid in pages[hi] then Some(pages[hi][mid]) else None
  }

  function PageIn(t: Table, p: nat): Option<seq<u64>> { if p in t.pages then Some(t.pages[p]) else None }

  ghost predicate Represents(pages: Level2, t: Table) { forall p: nat :: Lookup(pages, p) == PageIn(t, p) }

  function Put(pages: Level2, hi: nat, mid: nat, page: seq<u64>): Level2 {
    var level1: Level1 := if hi in pages then pages[hi] else map[];
    pages[hi := level1[mid := page]]
  }

  lemma PutLookup(pages: Level2, p: nat, page: seq<u64>, q: nat)
    ensures Lookup(Put(pages, p / FANOUT, p % FANOUT, page), q) == if p == q then Some(page) else Lookup(pages, q)
  {
  }

  /** An empty second level makes no difference. */
  lemma TouchLookup(pages: Level2, hi: nat, q: nat)
    requires hi !in pages
    ensures Lookup(pages[hi := map[]], q) == Lookup(pages, q)
  {
  }

  lemma AllocateOne(t: Table, first: nat, p: nat)
    requires first <= p
    ensures Allocate(Allocate(t, first, p), p, p + 1) == Allocate(t, first, p + 1)
  {
    assert (Allocate(t, first, p).pages.Keys + PageRange(p, p + 1)) == t.pages.Keys + PageRange(first, p + 1);
  }

  lemma AllocateNone(t: Table, p: nat)
    ensures Allocate(t, p, p) == t
  {
    assert t.pages.Keys + PageRange(p, p) == t.pages.Keys;
    assert Allocate(t, p, p).pages == t.pages;
  }

  lemma AllocatePresent(t: Table, p: nat)
    requires p in t.pages
    ensures Allocate(t, p, p + 1) == t
  {
    assert t.pages.Keys + PageRange(p, p + 1) == t.pages.Keys;
    assert Allocate(t, p, p + 1).pages == t.pages;
  }

  lemma AllocateAbsent(t: Table, p: nat)
    requires p !in t.pages
    ensures Allocate(t, p, p + 1).pages == t.pages[p := ZeroPage()]
  {
  }

  class CountsPagesL2 {
    var pagesL1: Level2
    var unknown: u64
    ghost var table: Table

    constructor ()
      ensures Valid() && table == EMPTY
    {
      pagesL1, unknown, table := map[], 0, EMPTY;
    }

    ghost predicate Valid()
      reads this
    {
      && table.Valid() && Represents(pagesL1, table) && unknown == table.unknown
      && forall p :: p in table.pages ==> p < FANOUT * FANOUT
    }

    method AllocateRange(base: u64, size: u64)
      requires Valid()
      requires (base + size + PAGE_SIZE - 1) / PAGE_SIZE * PAGE_SIZE < ADDRESS_LIMIT
      modifies this
      ensures Valid() && table == Allocate(old(table), FirstPage(base), EndPage(base, size))
    {
      var address := base / PAGE_SIZE * PAGE_SIZE;
      var end := (base + size + PAGE_SIZE - 1) / PAGE_SIZE * PAGE_SIZE;
      ghost var p: nat := FirstPage(base);
      AllocateNone(table, p);
      while address <= end
        invariant Valid() && address == p * PAGE_SIZE && FirstPage(base) <= p <= EndPage(base, size)
        invariant table == Allocate(old(table), FirstPage(base), p)
        decreases end - address
      {
        AllocatePage(address, p);
        AllocateOne(old(table), FirstPage(base), p);
        address := address + PAGE_SIZE;
        p := p + 1;
      }
    }

    method AllocatePage(address: u64, ghost p: nat)
      requires Valid() && address == p * PAGE_SIZE && address < ADDRESS_LIMIT
      modifies this
      ensures Valid() && table == Allocate(old(table), p, p + 1)
    {
      var hi, mid := HighBits(address), MidBits(address);
      BitsOfPage(address);
      assert hi == p / FANOUT && mid == p % FANOUT;
      assert Lookup(pagesL1, p) == PageIn(table, p);
      if hi !in pagesL1 {
        ghost var was := pagesL1;
        pagesL1 := pagesL1[hi := map[]];
        forall q: nat ensures Lookup(pagesL1, q) == PageIn(table, q) {
          TouchLookup(was, hi, q);
        }
      }
      if mid !in pagesL1[hi] {
        ghost var was, t := pagesL1, table;
        var level1: Level1 := pagesL1[hi];
        pagesL1 := pagesL1[hi := level1[mid := ZeroPage()]];
        AllocateAbsent(t, p);
        table := Allocate(t, p, p + 1);
        forall q: nat ensures Lookup(pagesL1, q) == PageIn(table, q) {
          PutLookup(was, p, ZeroPage(), q);
          assert Lookup(was, q) == PageIn(t, q);
        }
      } else {
        AllocatePresent(table, p);
      }
    }

    /** get_count(addr) += n. */
    method Count(addr: u64, n: nat)
      requires Valid() && addr < ADDRESS_LIMIT
      modifies this
      ensures Valid() && table == Add(old(table), addr, n)
    {
      var hi, mid := HighBits(addr), MidBits(addr);
      BitsOfPage(addr);
      ghost var p := PageOf(addr);
      ghost var was, t := pagesL1, table;
      assert Lookup(was, p) == PageIn(t, p);
      table := Add(t, addr, n);
      if hi !in pagesL1 || mid !in pagesL1[hi] {
        unknown := Wrap(unknown + n);
        return;
      }
      var page: seq<u64> := pagesL1[hi][mid];
      var i := LowBits(addr) / BUCKET;
      page := page[i := Wrap(page[i] + n)];
      var level1: Level1 := pagesL1[hi];
      pagesL1 := pagesL1[hi := level1[mid := page]];
      forall q: nat ensures Lookup(pagesL1, q) == PageIn(table, q) {
        PutLookup(was, p, page, q);
        assert Lookup(was, q) == PageIn(t, q);
      }
    }

    /** The nonzero counts, in the order of their addresses: the triple loop of the destructor. */
    method Entries() returns (out: seq<BucketCount>)
      requires Valid()
      ensures out == Report(table)
    {
      out := [];
      var hi: nat := 0;
      while hi < FANOUT
        invariant hi <= FANOUT && out == EntriesBelow(table, Index(hi, 0, 0))
      {
        if hi in pagesL1 {
          var mid: nat := 0;
          while mid < FANOUT
            invariant mid <= FANOUT && out == EntriesBelow(table, Index(hi, mid, 0))
          {
            out := PageEntries(hi, mid, out);
            mid := mid + 1;
          }
        } else {
          forall p: nat | p / FANOUT == hi ensures p !in table.pages {
            assert Lookup(pagesL1, p) == PageIn(table, p);
          }
          SkipHigh(table, hi);
        }
        hi := hi + 1;
      }
    }

    method PageEntries(hi: nat, mid: nat, before: seq<BucketCount>) returns (out: seq<BucketCount>)
      requires Valid() && hi < FANOUT && mid < FANOUT && hi in pagesL1
      requires before == EntriesBelow(table, Index(hi, mid, 0))
      ensures out == EntriesBelow(table, Index(hi, mid + 1, 0))
    {
      out := before;
      ghost var p := hi * FANOUT + mid;
      assert p / FANOUT == hi && p % FANOUT == mid;
      assert Lookup(pagesL1, p) == PageIn(table, p);
      if mid !in pagesL1[hi] {
        SkipPage(table, hi, mid);
        return;
      }
      var counts: seq<u64> := pagesL1[hi][mid];
      var lo: nat := 0;
      while lo < BUCKETS_IN_PAGE
        invariant lo <= BUCKETS_IN_PAGE && out == EntriesBelow(table, Index(hi, mid, lo))
      {
        IndexParts3(hi, mid, lo);
        if counts[lo] != 0 {
          out := out + [BucketCount(hi * 0x1_0000_0000 + mid * PAGE_SIZE + lo * BUCKET, counts[lo])];
        }
        lo := lo + 1;
      }
    }

    /** What every table but the last does when it is destroyed. */
    method MergeInto(last: CountsPagesL2)
      requires Valid() && last.Valid() && last != this && last.table.pages.Keys == table.pages.Keys
      modifies last
      ensures Valid() && table == old(table) && last.Valid()
      ensures last.table == Merge(old(last.table), table)
    {
      hide EntriesBelow, Represents, AtIndex;
      var entries := Entries();
      for k := 0 to |entries|
        invariant Valid() && table == old(table) && last.Valid()
        invariant last.table == AddAll(old(last.table), entries[..k])
      {
        EntryBound(table, ALL_BUCKETS, k);
        assert entries[..k + 1][..k] == entries[..k];
        last.Count(entries[k].addr, entries[k].count);
      }
      assert entries[..|entries|] == entries;
      EntriesMerge(old(last.table), table, ALL_BUCKETS);
      if unknown != 0 {
        last.AddUnknown(unknown);
      } else {
        assert Wrap(last.table.unknown + 0) == last.table.unknown;
      }
    }

    method AddUnknown(n: u64)
      requires Valid()
      modifies this
      ensures Valid() && table == old(table).(unknown := Wrap(old(table).unknown + n))
    {
      unknown := Wrap(unknown + n);
      table := table.(unknown := unknown);
    }
  }

  const ALL_BUCKETS := FANOUT * FANOUT * BUCKETS_IN_PAGE

  function Index(hi: nat, mid: nat, lo: nat): nat { (hi * FANOUT + mid) * BUCKETS_IN_PAGE + lo }

  datatype BucketCount = BucketCount(addr: u64, count: u64)

  /** The nonzero buckets below a limit. */
  function EntriesBelow(t: Table, limit: nat): seq<BucketCount>
    requires limit <= ALL_BUCKETS
  {
    if limit == 0 then []
    else
      EntriesBelow(t, limit - 1)
      + if AtIndex(t, limit - 1) != 0 then [BucketCount((limit - 1) * BUCKET, AtIndex(t, limit - 1))] else []
  }

  function Report(t: Table): seq<BucketCount> { EntriesBelow(t, ALL_BUCKETS) }

  lemma {:induction false} SkipZeros(t: Table, from: nat, upto: nat)
    requires from <= upto <= ALL_BUCKETS && forall b :: from <= b < upto ==> AtIndex(t, b) == 0
    ensures EntriesBelow(t, upto) == EntriesBelow(t, from)
    decreases upto
  {
    if from < upto {
      SkipZeros(t, from, upto - 1);
      assert AtIndex(t, upto - 1) == 0;
    }
  }

  lemma IndexParts3(hi: nat, mid: nat, lo: nat)
    requires hi < FANOUT && mid < FANOUT && lo < BUCKETS_IN_PAGE
    ensures Index(hi, mid, lo) < ALL_BUCKETS
    ensures Index(hi, mid, lo) / BUCKETS_IN_PAGE == hi * FANOUT + mid
    ensures Index(hi, mid, lo) % BUCKETS_IN_PAGE == lo
    ensures Index(hi, mid, lo) * BUCKET == hi * 0x1_0000_0000 + mid * PAGE_SIZE + lo * BUCKET
  {
  }

  lemma SkipPage(t: Table, hi: nat, mid: nat)
    requires hi < FANOUT && mid < FANOUT && hi * FANOUT + mid !in t.pages
    ensures EntriesBelow(t, Index(hi, mid + 1, 0)) == EntriesBelow(t, Index(hi, mid, 0))
  {
    SkipZeros(t, Index(hi, mid, 0), Index(hi, mid + 1, 0));
  }

  lemma SkipHigh(t: Table, hi: nat)
    requires hi < FANOUT && forall p: nat :: p / FANOUT == hi ==> p !in t.pages
    ensures EntriesBelow(t, Index(hi + 1, 0, 0)) == EntriesBelow(t, Index(hi, 0, 0))
  {
    forall b | Index(hi, 0, 0) <= b < Index(hi + 1, 0, 0) ensures AtIndex(t, b) == 0 {
      assert (b / BUCKETS_IN_PAGE) / FANOUT == hi;
    }
    SkipZeros(t, Index(hi, 0, 0), Index(hi + 1, 0, 0));
  }

  function AddAll(t: Table, entries: seq<BucketCount>): (u: Table)
    requires t.Valid()
    ensures u.Valid()
  {
    if entries == [] then t
    else
      var e := entries[|entries| - 1];
      Add(AddAll(t, entries[..|entries| - 1]), e.addr, e.count)
  }

  /** The counts of two tables of the same pages added up. */
  function Merge(t: Table, other: Table): Table {
    Table(map p | p in t.pages :: MergePage(t, other, p), Wrap(t.unknown + other.unknown))
  }

  function MergePage(t: Table, other: Table, p: nat): (s: seq<u64>)
    ensures |s| == BUCKETS_IN_PAGE
    ensures forall i :: 0 <= i < BUCKETS_IN_PAGE ==> s[i] == Wrap(t.At(p, i) + other.At(p, i))
  {
    seq(BUCKETS_IN_PAGE, i requires 0 <= i < BUCKETS_IN_PAGE => Wrap(t.At(p, i) + other.At(p, i)))
  }

  lemma AddIndex(t: Table, b: nat, n: u64, c: nat)
    requires t.Valid() && b < ALL_BUCKETS && b / BUCKETS_IN_PAGE in t.pages
    ensures var u := Add(t, b * BUCKET, n);
            && u.pages.Keys == t.pages.Keys && u.unknown == t.unknown
            && AtIndex(u, c) == if c == b then Wrap(AtIndex(t, c) + n) else AtIndex(t, c)
  {
    IndexParts(b * BUCKET);
    AddAt(t, b * BUCKET, n, c);
  }

  lemma AddAllSplit(t: Table, entries: seq<BucketCount>, e: BucketCount)
    requires t.Valid()
    ensures AddAll(t, entries + [e]) == Add(AddAll(t, entries), e.addr, e.count)
  {
    assert (entries + [e])[..|entries|] == entries;
  }

  lemma {:induction false} AddAllAt(t: Table, other: Table, limit: nat, c: nat)
    requires t.Valid() && other.pages.Keys == t.pages.Keys && limit <= ALL_BUCKETS
    ensures var u := AddAll(t, EntriesBelow(other, limit));
            && u.pages.Keys == t.pages.Keys && u.unknown == t.unknown
            && AtIndex(u, c) == if c < limit then Wrap(AtIndex(t, c) + AtIndex(other, c)) else AtIndex(t, c)
    decreases limit
  {
    if limit > 0 {
      var b := limit - 1;
      var before, n := EntriesBelow(other, b), AtIndex(other, b);
      AddAllAt(t, other, b, c);
      if n != 0 {
        AddAllSplit(t, before, BucketCount(b * BUCKET, n));
        AddIndex(AddAll(t, before), b, n, c);
      } else {
        assert EntriesBelow(other, limit) == before;
      }
    }
  }

  /** Adding the entries of a table one by one is merging it. */
  lemma EntriesMerge(t: Table, other: Table, limit: nat)
    requires limit == ALL_BUCKETS && t.Valid() && other.pages.Keys == t.pages.Keys
    requires forall p :: p in t.pages ==> p < FANOUT * FANOUT
    ensures AddAll(t, EntriesBelow(other, limit)).pages == Merge(t, other).pages
    ensures AddAll(t, EntriesBelow(other, limit)).unknown == t.unknown
  {
    var u, m := AddAll(t, EntriesBelow(other, limit)), Merge(t, other);
    AddAllAt(t, other, limit, 0);
    forall p | p in t.pages ensures u.pages[p] == m.pages[p] {
      PageMerged(t, other, p, limit);
    }
    assert u.pages.Keys == m.pages.Keys;
  }

  lemma PageMerged(t: Table, other: Table, p: nat, limit: nat)
    requires limit == ALL_BUCKETS && t.Valid() && other.pages.Keys == t.pages.Keys
    requires p in t.pages && p < FANOUT * FANOUT && p in AddAll(t, EntriesBelow(other, limit)).pages
    ensures AddAll(t, EntriesBelow(other, limit)).pages[p] == MergePage(t, other, p)
  {
    var u, m := AddAll(t, EntriesBelow(other, limit)), MergePage(t, other, p);
    assert |u.pages[p]| == BUCKETS_IN_PAGE;
    forall i | 0 <= i < BUCKETS_IN_PAGE ensures u.pages[p][i] == m[i] {
      AddAllAt(t, other, limit, p * BUCKETS_IN_PAGE + i);
      BucketParts(p, i);
      assert u.At(p, i) == u.pages[p][i];
    }
  }

  lemma BucketParts(p: nat, i: nat)
    requires i < BUCKETS_IN_PAGE
    ensures (p * BUCKETS_IN_PAGE + i) / BUCKETS_IN_PAGE == p && (p * BUCKETS_IN_PAGE + i) % BUCKETS_IN_PAGE == i
    ensures p < FANOUT * FANOUT ==> p * BUCKETS_IN_PAGE + i < ALL_BUCKETS
  {
  }

  lemma {:induction false} EntryBound(t: Table, limit: nat, k: nat)
    requires limit <= ALL_BUCKETS && k < |EntriesBelow(t, limit)|
    ensures EntriesBelow(t, limit)[k].addr < ADDRESS_LIMIT
    decreases limit
  {
    if k < |EntriesBelow(t, limit - 1)| {
      EntryBound(t, limit - 1, k);
    }
  }

  // Destroying the tables, the last first.

  lemma {:induction false} MergeSums(tables: seq<Table>, t: Table)
    requires |tables| > 1 && AllValid(tables) && t.Valid() && SumsTo(tables, t)
    ensures var m := |tables| - 1; SumsTo(tables[..m][0 := Merge(tables[0], tables[m])], t)
  {
    hide MergePage, Wrap;
    var m := |tables| - 1;
    var front, merged := tables[..m], Merge(tables[0], tables[m]);
    var fewer := front[0 := merged];
    forall p, i | p in t.pages && 0 <= i < BUCKETS_IN_PAGE ensures t.At(p, i) == Wrap(SumAt(fewer, p, i)) {
      MergedSum(front, tables[m], p, i);
    }
    SumUnknownChange(front, 0, merged);
    SumAtLeast(front, 0, 0, 0);
    WrapAdd(SumUnknown(front), tables[0].unknown, tables[m].unknown);
    WrapTwice(SumUnknown(front), tables[m].unknown);
  }

  lemma MergedSum(front: seq<Table>, b: Table, p: nat, i: nat)
    requires front != [] && p in front[0].pages && i < BUCKETS_IN_PAGE
    ensures Wrap(SumAt(front[0 := Merge(front[0], b)], p, i)) == Wrap(SumAt(front, p, i) + b.At(p, i))
  {
    var merged := Merge(front[0], b);
    assert merged.At(p, i) == Wrap(front[0].At(p, i) + b.At(p, i));
    SumChange(front, 0, merged, p, i);
    SumAtLeast(front, 0, p, i);
    WrapAdd(SumAt(front, p, i), front[0].At(p, i), b.At(p, i));
    WrapTwice(SumAt(front, p, i), b.At(p, i));
  }

  /** A single table that is a sum is the sum. */
  lemma SumOfOne(u: Table, t: Table)
    requires u.Valid() && t.Valid() && SumsTo([u], t)
    ensures u == t
  {
    assert [u][..0] == [];
    assert SumUnknown([u]) == u.unknown;
    assert [u][0].pages.Keys == t.pages.Keys;
    forall p | p in t.pages ensures u.pages[p] == t.pages[p] {
      forall i | 0 <= i < BUCKETS_IN_PAGE ensures u.pages[p][i] == t.pages[p][i] {
        assert SumAt([u], p, i) == u.At(p, i);
        assert t.At(p, i) == t.pages[p][i];
      }
    }
    assert u.pages == t.pages;
  }

  /** The first `k` tables are `values`. */
  ghost predicate HoldTables(tables: seq<CountsPagesL2>, values: seq<Table>, k: nat)
    reads tables
  {
    k == |values| <= |tables| && forall j :: 0 <= j < k ==> tables[j].table == values[j]
  }

  ghost predicate Separate(tables: seq<CountsPagesL2>)
    reads tables
  {
    && (forall k :: 0 <= k < |tables| ==> tables[k].Valid())
    && forall j, k :: 0 <= j < k < |tables| ==> tables[j] != tables[k]
  }

  /** The report on exit: every bucket once, with the count one table would have had, whatever cores
  the calls ran on. */
  method FinalReport(tables: seq<CountsPagesL2>, ghost ops: seq<Op>) returns (report: seq<BucketCount>, unknown: u64)
    requires tables != [] && Separate(tables) && HoldTables(tables, Routed(ops, |tables|), |tables|)
    modifies tables[0]
    ensures report == Report(Single(ops)) && unknown == Single(ops).unknown
  {
    RoutingInvisible(ops, |tables|);
    var k := |tables|;
    ghost var sums := Routed(ops, k);
    while k > 1
      invariant 1 <= k <= |tables| && Separate(tables) && HoldTables(tables, sums, k)
      invariant SumsTo(sums, Single(ops))
    {
      k := k - 1;
      tables[k].MergeInto(tables[0]);
      MergeSums(sums, Single(ops));
      sums := sums[..k][0 := Merge(sums[0], sums[k])];
    }
    assert sums == [tables[0].table];
    SumOfOne(tables[0].table, Single(ops));
    report := tables[0].Entries();
    unknown := tables[0].unknown;
  }

  // What the report says.

  /** The report lists buckets in the order of their addresses, each at most once. */
  lemma {:induction false} EntriesOrdered(t: Table, limit: nat, j: nat, k: nat)
    requires limit <= ALL_BUCKETS && j < k < |EntriesBelow(t, limit)|
    ensures EntriesBelow(t, limit)[j].addr < EntriesBelow(t, limit)[k].addr < limit * BUCKET
    decreases limit
  {
    var front := EntriesBelow(t, limit - 1);
    if k < |front| {
      EntriesOrdered(t, limit - 1, j, k);
    } else {
      EntryOf(t, limit - 1, j);
    }
  }

  lemma {:induction false} EntryOf(t: Table, limit: nat, k: nat)
    requires limit <= ALL_BUCKETS && k < |EntriesBelow(t, limit)|
    ensures var e := EntriesBelow(t, limit)[k];
            e.addr % BUCKET == 0 && e.addr < limit * BUCKET && e.count == AtIndex(t, e.addr / BUCKET) != 0
    decreases limit
  {
    if k < |EntriesBelow(t, limit - 1)| {
      EntryOf(t, limit - 1, k);
    }
  }

  lemma {:induction false} NonzeroListed(t: Table, limit: nat, b: nat) returns (k: nat)
    requires b < limit <= ALL_BUCKETS && AtIndex(t, b) != 0
    ensures k < |EntriesBelow(t, limit)| && EntriesBelow(t, limit)[k] == BucketCount(b * BUCKET, AtIndex(t, b))
    decreases limit
  {
    if b < limit - 1 {
      k := NonzeroListed(t, limit - 1, b);
    } else {
      k := |EntriesBelow(t, limit - 1)|;
    }
  }

  function PrintedTotal(report: seq<BucketCount>): nat {
    if report == [] then 0 else PrintedTotal(report[..|report| - 1]) + report[|report| - 1].count
  }

  lemma {:induction false} PrintedIsTotal(t: Table, limit: nat)
    requires limit <= ALL_BUCKETS
    ensures PrintedTotal(EntriesBelow(t, limit)) == TotalBelow(t, limit)
    decreases limit
  {
    if limit > 0 {
      var front, n := EntriesBelow(t, limit - 1), AtIndex(t, limit - 1);
      PrintedIsTotal(t, limit - 1);
      if n != 0 {
        assert (front + [BucketCount((limit - 1) * BUCKET, n)])[..|front|] == front;
      } else {
        assert EntriesBelow(t, limit) == front;
      }
    }
  }

  /** A line of the report gives the calls to its bucket made since the bucket's page was mapped. */
  lemma LineExact(ops: seq<Op>, limit: nat, k: nat)
    requires limit == ALL_BUCKETS && k < |Report(Single(ops))|
    ensures var e := Report(Single(ops))[k]; e.count == Wrap(CallsTo(ops, PageOf(e.addr), BucketOf(e.addr))) != 0
  {
    var e := Report(Single(ops))[k];
    EntryOf(Single(ops), limit, k);
    IndexParts(e.addr);
    CountsExact(ops, PageOf(e.addr), BucketOf(e.addr));
  }

  /** The printed counts and the unknown calls add up to all calls. */
  lemma ReportConserves(ops: seq<Op>, limit: nat)
    requires limit == ALL_BUCKETS && CallsBelow(ops, limit)
    ensures Wrap(PrintedTotal(Report(Single(ops))) + Single(ops).unknown) == Wrap(CallCount(ops))
  {
    PrintedIsTotal(Single(ops), limit);
    CallsConserved(ops, limit);
  }

  /** Every bucket with a nonzero count has a line. */
  lemma NonzeroReported(ops: seq<Op>, limit: nat, p: nat, i: nat)
    requires limit == ALL_BUCKETS && p < FANOUT * FANOUT && i < BUCKETS_IN_PAGE && Wrap(CallsTo(ops, p, i)) != 0
    ensures exists e :: e in Report(Single(ops)) && PageOf(e.addr) == p && BucketOf(e.addr) == i
  {
    CountsExact(ops, p, i);
    BucketParts(p, i);
    var b := p * BUCKETS_IN_PAGE + i;
    var k := NonzeroListed(Single(ops), limit, b);
    IndexParts(b * BUCKET);
    assert Report(Single(ops))[k] in Report(Single(ops));
  }
}
