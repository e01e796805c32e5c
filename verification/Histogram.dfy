/** What funcount computes: a count for every 8-byte bucket of the pages known when it was called, however
the calls were spread over per-core tables. Counters wrap around at 2^64. */
module Histogram {
  import opened Events

  const PAGE_SIZE := 0x1_0000
  const BUCKET := 8
  const BUCKETS_IN_PAGE := 0x2000
  const ADDRESS_LIMIT := 0x1_0000_0000_0000   // 48 bits

  /** Counts of the buckets of each known page; `unknown` counts calls elsewhere. */
  datatype Table = Table(pages: map<nat, seq<u64>>, unknown: u64) {
    ghost predicate Valid() {
      forall p :: p in pages ==> |pages[p]| == BUCKETS_IN_PAGE
    }

    function At(p: nat, i: nat): u64 {
      if p in pages && i < |pages[p]| then pages[p][i] else 0
    }
  }

  const EMPTY: Table := Table(map[], 0)

  function PageOf(addr: u64): nat { addr / PAGE_SIZE }

  function BucketOf(addr: u64): (i: nat)
    ensures i < BUCKETS_IN_PAGE
  {
    addr % PAGE_SIZE / BUCKET
  }

  function Wrap(n: nat): u64 { n % TWO_64 }

  function ZeroPage(): (s: seq<u64>)
    ensures |s| == BUCKETS_IN_PAGE && forall i :: 0 <= i < |s| ==> s[i] == 0
  {
    seq(BUCKETS_IN_PAGE, _ => 0)
  }

  /** The pages a segment touches, and the one after it: the loop in allocate_range runs up to and
  including the rounded-up end. */
  function FirstPage(base: u64): nat { base / PAGE_SIZE }

  function EndPage(base: u64, size: u64): nat { (base + size + PAGE_SIZE - 1) / PAGE_SIZE + 1 }

  function PageRange(first: nat, end: nat): (r: set<nat>)
    ensures forall p :: p in r <==> first <= p < end
    decreases end - first
  {
    if first >= end then {} else {first} + PageRange(first + 1, end)
  }

  /** The pages allocated for a segment are those that reach into it, and one more page at its end. */
  lemma SegmentPages(base: u64, size: u64, p: nat)
    ensures p in PageRange(FirstPage(base), EndPage(base, size))
       <==> base < (p + 1) * 0x1_0000 && p * 0x1_0000 < base + size + 0x1_0000
  {
  }

  /** So every address of the segment is on one, in the bucket of its eight bytes. */
  lemma SegmentCovered(base: u64, size: u64, a: u64)
    requires base <= a < base + size
    ensures PageOf(a) in PageRange(FirstPage(base), EndPage(base, size))
    ensures 0 <= a - (PageOf(a) * 0x1_0000 + BucketOf(a) * 8) < 8
  {
  }

  /** Pages already there keep their counts. */
  function Allocate(t: Table, first: nat, end: nat): Table {
    t.(pages := map p | p in t.pages.Keys + PageRange(first, end) :: if p in t.pages then t.pages[p] else ZeroPage())
  }

  /** Adds to the bucket of an address, or to the calls to unknown places. */
  function Add(t: Table, addr: u64, n: nat): Table
    requires t.Valid()
  {
    var p, i := PageOf(addr), BucketOf(addr);
    if p in t.pages then
      var counts: seq<u64> := t.pages[p];
      var more: seq<u64> := counts[i := Wrap(counts[i] + n)];
      t.(pages := t.pages[p := more])
    else t.(unknown := Wrap(t.unknown + n))
  }

  /** Segments appear in all tables at once; a call is counted in the table of the core it runs on. */
  datatype Op = Map(first: nat, end: nat) | Call(addr: u64, core: nat)

  /** One table for all calls. */
  function Single(ops: seq<Op>): (t: Table)
    ensures t.Valid()
  {
    if ops == [] then EMPTY
    else
      var t := Single(ops[..|ops| - 1]);
      match ops[|ops| - 1]
      case Map(first, end) => Allocate(t, first, end)
      case Call(addr, _) => Add(t, addr, 1)
  }

  ghost predicate AllValid(tables: seq<Table>) { forall k :: 0 <= k < |tables| ==> tables[k].Valid() }

  function AllocateAll(tables: seq<Table>, first: nat, end: nat): (r: seq<Table>)
    ensures |r| == |tables|
    ensures forall k :: 0 <= k < |tables| ==> r[k] == Allocate(tables[k], first, end)
  {
    seq(|tables|, k requires 0 <= k < |tables| => Allocate(tables[k], first, end))
  }

  function Initial(n: nat): (r: seq<Table>)
    ensures |r| == n && forall k :: 0 <= k < n ==> r[k] == EMPTY
  {
    seq(n, _ => EMPTY)
  }

  /** `n` tables, calls going to that of the core's number modulo `n`. */
  function Routed(ops: seq<Op>, n: nat): (tables: seq<Table>)
    requires n > 0
    ensures |tables| == n && AllValid(tables)
  {
    if ops == [] then Initial(n)
    else
      var tables := Routed(ops[..|ops| - 1], n);
      match ops[|ops| - 1]
      case Map(first, end) => AllocateAll(tables, first, end)
      case Call(addr, core) => tables[core % n := Add(tables[core % n], addr, 1)]
  }

  // Adding tables up.

  function SumAt(tables: seq<Table>, p: nat, i: nat): nat {
    if tables == [] then 0 else SumAt(tables[..|tables| - 1], p, i) + tables[|tables| - 1].At(p, i)
  }

  function SumUnknown(tables: seq<Table>): nat {
    if tables == [] then 0 else SumUnknown(tables[..|tables| - 1]) + tables[|tables| - 1].unknown
  }

  /** `t` has the pages of each table, and their counts added up. */
  ghost predicate SumsTo(tables: seq<Table>, t: Table) {
    && (forall k :: 0 <= k < |tables| ==> tables[k].pages.Keys == t.pages.Keys)
    && (forall p, i :: p in t.pages && 0 <= i < BUCKETS_IN_PAGE ==> t.At(p, i) == Wrap(SumAt(tables, p, i)))
    && t.unknown == Wrap(SumUnknown(tables))
  }

  lemma {:induction false} SumSame(a: seq<Table>, b: seq<Table>, p: nat, i: nat)
    requires |a| == |b| && forall k :: 0 <= k < |a| ==> a[k].At(p, i) == b[k].At(p, i)
    ensures SumAt(a, p, i) == SumAt(b, p, i)
    decreases |a|
  {
    if a != [] {
      SumSame(a[..|a| - 1], b[..|b| - 1], p, i);
    }
  }

  lemma {:induction false} SumUnknownSame(a: seq<Table>, b: seq<Table>)
    requires |a| == |b| && forall k :: 0 <= k < |a| ==> a[k].unknown == b[k].unknown
    ensures SumUnknown(a) == SumUnknown(b)
    decreases |a|
  {
    if a != [] {
      SumUnknownSame(a[..|a| - 1], b[..|b| - 1]);
    }
  }

  lemma {:induction false} SumChange(a: seq<Table>, k: nat, t: Table, p: nat, i: nat)
    requires k < |a|
    ensures SumAt(a[k := t], p, i) == SumAt(a, p, i) - a[k].At(p, i) + t.At(p, i)
    decreases |a|
  {
    var m := |a| - 1;
    if k < m {
      SumChange(a[..m], k, t, p, i);
      assert a[k := t][..m] == a[..m][k := t];
    } else {
      assert a[k := t][..m] == a[..m];
    }
  }

  lemma {:induction false} SumUnknownChange(a: seq<Table>, k: nat, t: Table)
    requires k < |a|
    ensures SumUnknown(a[k := t]) == SumUnknown(a) - a[k].unknown + t.unknown
    decreases |a|
  {
    var m := |a| - 1;
    if k < m {
      SumUnknownChange(a[..m], k, t);
      assert a[k := t][..m] == a[..m][k := t];
    } else {
      assert a[k := t][..m] == a[..m];
    }
  }

  lemma {:induction false} SumZero(n: nat, p: nat, i: nat)
    ensures SumAt(Initial(n), p, i) == 0 && SumUnknown(Initial(n)) == 0
    decreases n
  {
    if n > 0 {
      assert Initial(n)[..n - 1] == Initial(n - 1);
      SumZero(n - 1, p, i);
    }
  }

  lemma WrapAdd(total: nat, was: u64, n: nat)
    requires total >= was
    ensures Wrap(total - was + Wrap(was + n)) == Wrap(Wrap(total) + n)
  {
  }

  lemma WrapTwice(total: nat, n: nat)
    ensures Wrap(Wrap(total) + n) == Wrap(total + n)
  {
  }

  lemma AllocateSums(tables: seq<Table>, t: Table, first: nat, end: nat)
    requires AllValid(tables) && t.Valid() && SumsTo(tables, t)
    ensures SumsTo(AllocateAll(tables, first, end), Allocate(t, first, end))
  {
    var more, u := AllocateAll(tables, first, end), Allocate(t, first, end);
    forall p, i | p in u.pages && 0 <= i < BUCKETS_IN_PAGE ensures u.At(p, i) == Wrap(SumAt(more, p, i)) {
      SumSame(tables, more, p, i);
      if p !in t.pages {
        AbsentZero(tables, p, i);
      }
    }
    SumUnknownSame(tables, more);
  }

  lemma {:induction false} AbsentZero(tables: seq<Table>, p: nat, i: nat)
    requires forall k :: 0 <= k < |tables| ==> p !in tables[k].pages
    ensures SumAt(tables, p, i) == 0
    decreases |tables|
  {
    if tables != [] {
      AbsentZero(tables[..|tables| - 1], p, i);
    }
  }

  lemma {:induction false} SumAtLeast(tables: seq<Table>, k: nat, p: nat, i: nat)
    requires k < |tables|
    ensures SumAt(tables, p, i) >= tables[k].At(p, i) && SumUnknown(tables) >= tables[k].unknown
    decreases |tables|
  {
    if k < |tables| - 1 {
      SumAtLeast(tables[..|tables| - 1], k, p, i);
    }
  }

  lemma AddEffect(t: Table, addr: u64, n: nat, p: nat, i: nat)
    requires t.Valid()
    ensures var u := Add(t, addr, n);
            && u.Valid() && u.pages.Keys == t.pages.Keys
            && u.unknown == (if PageOf(addr) in t.pages then t.unknown else Wrap(t.unknown + n))
            && u.At(p, i) == if p == PageOf(addr) && i == BucketOf(addr) && p in t.pages then Wrap(t.At(p, i) + n)
                             else t.At(p, i)
  {
  }

  lemma AddUnknownSums(tables: seq<Table>, t: Table, k: nat, addr: u64, n: nat)
    requires AllValid(tables) && t.Valid() && SumsTo(tables, t) && k < |tables|
    ensures Add(t, addr, n).unknown == Wrap(SumUnknown(tables[k := Add(tables[k], addr, n)]))
  {
    hide Add, Wrap, PageOf, BucketOf;
    AddEffect(t, addr, n, 0, 0);
    AddEffect(tables[k], addr, n, 0, 0);
    SumUnknownChange(tables, k, Add(tables[k], addr, n));
    SumAtLeast(tables, k, 0, 0);
    WrapAdd(SumUnknown(tables), tables[k].unknown, n);
  }

  lemma AddBucketSums(tables: seq<Table>, t: Table, k: nat, addr: u64, n: nat, p: nat, i: nat)
    requires AllValid(tables) && t.Valid() && SumsTo(tables, t) && k < |tables|
    requires p in t.pages && i < BUCKETS_IN_PAGE
    ensures Add(t, addr, n).At(p, i) == Wrap(SumAt(tables[k := Add(tables[k], addr, n)], p, i))
  {
    hide Add, Wrap, PageOf, BucketOf;
    AddEffect(t, addr, n, p, i);
    AddEffect(tables[k], addr, n, p, i);
    SumChange(tables, k, Add(tables[k], addr, n), p, i);
    SumAtLeast(tables, k, p, i);
    WrapAdd(SumAt(tables, p, i), tables[k].At(p, i), n);
  }

  lemma AddSums(tables: seq<Table>, t: Table, k: nat, addr: u64, n: nat)
    requires AllValid(tables) && t.Valid() && SumsTo(tables, t) && k < |tables|
    ensures SumsTo(tables[k := Add(tables[k], addr, n)], Add(t, addr, n))
  {
    hide Add, Wrap, SumAt, SumUnknown;
    var more, u := tables[k := Add(tables[k], addr, n)], Add(t, addr, n);
    AddUnknownSums(tables, t, k, addr, n);
    AddEffect(t, addr, n, 0, 0);
    AddEffect(tables[k], addr, n, 0, 0);
    forall p, i | p in u.pages && 0 <= i < BUCKETS_IN_PAGE ensures u.At(p, i) == Wrap(SumAt(more, p, i)) {
      AddBucketSums(tables, t, k, addr, n, p, i);
    }
  }

  /** However calls are routed, the tables add up to the one a single table would be. */
  lemma {:induction false} RoutingInvisible(ops: seq<Op>, n: nat)
    requires n > 0
    ensures SumsTo(Routed(ops, n), Single(ops))
    decreases |ops|
  {
    if ops == [] {
      SumZero(n, 0, 0);
    } else {
      var m := |ops| - 1;
      RoutingInvisible(ops[..m], n);
      match ops[m]
      case Map(first, end) => AllocateSums(Routed(ops[..m], n), Single(ops[..m]), first, end);
      case Call(addr, core) => AddSums(Routed(ops[..m], n), Single(ops[..m]), core % n, addr, 1);
    }
  }

  // What the single table holds.

  predicate Mapped(ops: seq<Op>, p: nat) {
    exists k :: 0 <= k < |ops| && ops[k].Map? && ops[k].first <= p < ops[k].end
  }

  /** Calls to a bucket made after its page was mapped. */
  function CallsTo(ops: seq<Op>, p: nat, i: nat): nat {
    if ops == [] then 0
    else
      var m := |ops| - 1;
      CallsTo(ops[..m], p, i)
      + if ops[m].Call? && PageOf(ops[m].addr) == p && BucketOf(ops[m].addr) == i && Mapped(ops[..m], p) then 1 else 0
  }

  /** Calls to pages not mapped by then. */
  function CallsElsewhere(ops: seq<Op>): nat {
    if ops == [] then 0
    else
      var m := |ops| - 1;
      CallsElsewhere(ops[..m]) + if ops[m].Call? && !Mapped(ops[..m], PageOf(ops[m].addr)) then 1 else 0
  }

  lemma MappedMore(ops: seq<Op>, p: nat)
    requires ops != []
    ensures Mapped(ops, p)
       <==> Mapped(ops[..|ops| - 1], p) || (ops[|ops| - 1].Map? && ops[|ops| - 1].first <= p < ops[|ops| - 1].end)
  {
    var m := |ops| - 1;
    if Mapped(ops, p) && !(ops[m].Map? && ops[m].first <= p < ops[m].end) {
      var k :| 0 <= k < |ops| && ops[k].Map? && ops[k].first <= p < ops[k].end;
      assert ops[..m][k] == ops[k];
    }
    if Mapped(ops[..m], p) {
      var k :| 0 <= k < m && ops[..m][k].Map? && ops[..m][k].first <= p < ops[..m][k].end;
      assert ops[k].Map?;
    }
  }

  lemma AllocatePages(t: Table, first: nat, end: nat, p: nat, i: nat)
    ensures p in Allocate(t, first, end).pages <==> p in t.pages || first <= p < end
    ensures Allocate(t, first, end).At(p, i) == t.At(p, i)
  {
  }

  lemma AddPages(t: Table, addr: u64, p: nat, i: nat)
    requires t.Valid() && i < BUCKETS_IN_PAGE
    ensures Add(t, addr, 1).pages.Keys == t.pages.Keys
    ensures Add(t, addr, 1).At(p, i)
         == if PageOf(addr) == p && BucketOf(addr) == i && p in t.pages then Wrap(t.At(p, i) + 1) else t.At(p, i)
  {
  }

  /** A bucket's count is the number of calls to it since its page was mapped, and every other call is
  counted as unknown. */
  lemma {:induction false} CountsExact(ops: seq<Op>, p: nat, i: nat)
    requires i < BUCKETS_IN_PAGE
    ensures p in Single(ops).pages <==> Mapped(ops, p)
    ensures Single(ops).At(p, i) == Wrap(CallsTo(ops, p, i))
    decreases |ops|
  {
    hide Mapped, BucketOf, PageOf, Add, Allocate;
    if ops != [] {
      var m := |ops| - 1;
      var t := Single(ops[..m]);
      CountsExact(ops[..m], p, i);
      MappedMore(ops, p);
      match ops[m]
      case Map(first, end) => AllocatePages(t, first, end, p, i);
      case Call(addr, _) =>
        AddPages(t, addr, p, i);
        WrapTwice(CallsTo(ops[..m], p, i), 1);
    } else {
      NothingMapped(p);
    }
  }

  lemma NothingMapped(p: nat)
    ensures !Mapped([], p)
  {
  }

  lemma AllocateUnknown(t: Table, first: nat, end: nat)
    ensures Allocate(t, first, end).unknown == t.unknown
  {
  }

  lemma NoneElsewhere()
    ensures EMPTY.unknown == Wrap(0)
  {
  }

  lemma {:induction false} UnknownExact(ops: seq<Op>)
    ensures Single(ops).unknown == Wrap(CallsElsewhere(ops))
    decreases |ops|
  {
    hide Mapped, BucketOf, PageOf, Add, Allocate, Wrap;
    if ops != [] {
      var m := |ops| - 1;
      UnknownExact(ops[..m]);
      if ops[m].Call? {
        CountsExact(ops[..m], PageOf(ops[m].addr), 0);
        AddEffect(Single(ops[..m]), ops[m].addr, 1, 0, 0);
        WrapTwice(CallsElsewhere(ops[..m]), 1);
      } else {
        AllocateUnknown(Single(ops[..m]), ops[m].first, ops[m].end);
      }
    } else {
      NoneElsewhere();
    }
  }

  // Totals, over the buckets in the order of their addresses.

  function BucketIndex(addr: u64): nat { addr / BUCKET }

  function AtIndex(t: Table, b: nat): u64 { t.At(b / BUCKETS_IN_PAGE, b % BUCKETS_IN_PAGE) }

  function TotalBelow(t: Table, limit: nat): nat {
    if limit == 0 then 0 else TotalBelow(t, limit - 1) + AtIndex(t, limit - 1)
  }

  lemma IndexParts(addr: u64)
    ensures BucketIndex(addr) / BUCKETS_IN_PAGE == PageOf(addr)
    ensures BucketIndex(addr) % BUCKETS_IN_PAGE == BucketOf(addr)
  {
  }

  lemma {:induction false} TotalSame(t: Table, u: Table, limit: nat)
    requires forall b :: 0 <= b < limit ==> AtIndex(t, b) == AtIndex(u, b)
    ensures TotalBelow(t, limit) == TotalBelow(u, limit)
    decreases limit
  {
    if limit > 0 {
      TotalSame(t, u, limit - 1);
    }
  }

  lemma {:induction false} TotalChange(t: Table, u: Table, limit: nat, c: nat)
    requires c < limit && forall b :: 0 <= b < limit && b != c ==> AtIndex(t, b) == AtIndex(u, b)
    ensures TotalBelow(u, limit) == TotalBelow(t, limit) - AtIndex(t, c) + AtIndex(u, c)
    decreases limit
  {
    if c < limit - 1 {
      TotalChange(t, u, limit - 1, c);
    } else {
      TotalSame(t, u, limit - 1);
    }
  }

  lemma AddAt(t: Table, addr: u64, n: nat, b: nat)
    requires t.Valid() && PageOf(addr) in t.pages
    ensures AtIndex(Add(t, addr, n), b)
         == if b == BucketIndex(addr) then Wrap(AtIndex(t, b) + n) else AtIndex(t, b)
  {
    IndexParts(addr);
  }

  lemma AllocateAt(t: Table, first: nat, end: nat, b: nat)
    ensures AtIndex(Allocate(t, first, end), b) == AtIndex(t, b)
  {
  }

  lemma AllocateTotal(t: Table, first: nat, end: nat, limit: nat)
    ensures Grand(Allocate(t, first, end), limit) == Grand(t, limit)
  {
    forall b ensures AtIndex(Allocate(t, first, end), b) == AtIndex(t, b) {
      AllocateAt(t, first, end, b);
    }
    TotalSame(Allocate(t, first, end), t, limit);
  }

  predicate CallsBelow(ops: seq<Op>, limit: nat) {
    forall k :: 0 <= k < |ops| && ops[k].Call? ==> BucketIndex(ops[k].addr) < limit
  }

  lemma CallsBelowExactly(ops: seq<Op>, limit: nat)
    ensures CallsBelow(ops, limit) <==> forall k :: 0 <= k < |ops| && ops[k].Call? ==> ops[k].addr < 8 * limit
  {
    assert forall k :: 0 <= k < |ops| && ops[k].Call? ==>
        (BucketIndex(ops[k].addr) < limit <==> ops[k].addr < 8 * limit);
  }

  function CallCount(ops: seq<Op>): nat {
    if ops == [] then 0 else CallCount(ops[..|ops| - 1]) + if ops[|ops| - 1].Call? then 1 else 0
  }

  function Grand(t: Table, limit: nat): nat { TotalBelow(t, limit) + t.unknown }

  lemma AddKnownTotal(t: Table, addr: u64, n: nat, limit: nat)
    requires t.Valid() && BucketIndex(addr) < limit && PageOf(addr) in t.pages
    ensures TotalBelow(t, limit) >= AtIndex(t, BucketIndex(addr))
    ensures TotalBelow(Add(t, addr, n), limit)
         == TotalBelow(t, limit) - AtIndex(t, BucketIndex(addr)) + Wrap(AtIndex(t, BucketIndex(addr)) + n)
  {
    var u := Add(t, addr, n);
    forall b | 0 <= b < limit && b != BucketIndex(addr) ensures AtIndex(t, b) == AtIndex(u, b) {
      AddAt(t, addr, n, b);
    }
    AddAt(t, addr, n, BucketIndex(addr));
    TotalChange(t, u, limit, BucketIndex(addr));
    TotalAtLeast(t, limit, BucketIndex(addr));
  }

  lemma AddTotal(t: Table, addr: u64, n: nat, limit: nat)
    requires t.Valid() && BucketIndex(addr) < limit
    ensures Wrap(Grand(Add(t, addr, n), limit)) == Wrap(Grand(t, limit) + n)
  {
    if PageOf(addr) in t.pages {
      AddKnownTotal(t, addr, n, limit);
      WrapTwice(Grand(t, limit), n);
      WrapAdd(Grand(t, limit), AtIndex(t, BucketIndex(addr)), n);
    } else {
      TotalSame(t, Add(t, addr, n), limit);
      WrapTwice(Grand(t, limit), n);
      WrapAdd(Grand(t, limit), t.unknown, n);
    }
  }

  lemma {:induction false} TotalAtLeast(t: Table, limit: nat, b: nat)
    requires b < limit
    ensures TotalBelow(t, limit) >= AtIndex(t, b)
    decreases limit
  {
    if b < limit - 1 {
      TotalAtLeast(t, limit - 1, b);
    }
  }

  lemma {:induction false} TotalZero(limit: nat)
    ensures Grand(EMPTY, limit) == 0
    decreases limit
  {
    if limit > 0 {
      TotalZero(limit - 1);
    }
  }

  lemma WrapWrap(x: nat, y: nat, n: nat)
    requires Wrap(x) == Wrap(y)
    ensures Wrap(x + n) == Wrap(y + n)
  {
  }

  /** No call is lost or counted twice: all counts and the unknown ones add up to the number of calls. */
  lemma {:induction false} CallsConserved(ops: seq<Op>, limit: nat)
    requires CallsBelow(ops, limit)
    ensures Wrap(Grand(Single(ops), limit)) == Wrap(CallCount(ops))
    decreases |ops|
  {
    hide Add, Allocate, Wrap;
    if ops == [] {
      TotalZero(limit);
    } else {
      var m := |ops| - 1;
      CallsConserved(ops[..m], limit);
      match ops[m]
      case Map(first, end) =>
        AllocateTotal(Single(ops[..m]), first, end, limit);
      case Call(addr, _) =>
        AddTotal(Single(ops[..m]), addr, 1, limit);
        WrapWrap(Grand(Single(ops[..m]), limit), CallCount(ops[..m]), 1);
    }
  }
}
