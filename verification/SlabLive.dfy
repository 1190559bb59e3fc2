/** What is allocated: the live addresses with their capacities, how each step changes
    them, and the counters of each chunk size. */
module SlabLive {
  import opened Seqs
  import opened Powers
  import opened SlabList
  import opened SlabBlocks
  import opened SlabPages
  import opened SlabLayout
  import opened SlabChunks

  /** The bytes allocated at address `p`, or 0. */
  ghost function Cap(g: Geometry, bl: Blocks, sl: Slices, p: nat): nat {
    if p < g.start then 0
    else CapAt(g, bl, sl, PageAt(g, p), OffAt(g, p))
  }

  ghost function CapAt(g: Geometry, bl: Blocks, sl: Slices, page: nat, off: nat): nat {
    if page in bl && bl[page].use.Large? then if off == 0 then bl[page].len * PageSize(g) else 0
    else if page in sl && Rem(off, Pow2(sl[page].shift)) == 0 &&
      Quot(off, Pow2(sl[page].shift)) in sl[page].used then Pow2(sl[page].shift)
    else 0
  }

  /** `live` is exactly what is allocated. */
  ghost predicate LiveOk(g: Geometry, bl: Blocks, sl: Slices, live: map<nat, nat>) {
    forall p: nat {:trigger Cap(g, bl, sl, p)} :: if Cap(g, bl, sl, p) == 0 then p !in live
      else p in live && live[p] == Cap(g, bl, sl, p)
  }

  /** The step changes what is allocated at `a`, to `c` bytes, and nowhere else. */
  ghost predicate CapSet(g: Geometry, bl: Blocks, sl: Slices, bl2: Blocks, sl2: Slices, a: nat, c: nat) {
    forall p: nat {:trigger Cap(g, bl2, sl2, p)} :: Cap(g, bl2, sl2, p) == if p == a then c else Cap(g, bl, sl, p)
  }

  lemma {:induction false} CapSetLive(g: Geometry, bl: Blocks, sl: Slices, bl2: Blocks, sl2: Slices, a: nat, c: nat,
                                      live: map<nat, nat>)
    requires LiveOk(g, bl, sl, live) && CapSet(g, bl, sl, bl2, sl2, a, c)
    ensures LiveOk(g, bl2, sl2, if c == 0 then live - {a} else live[a := c])
  {
    hide Cap;
    forall p: nat ensures Cap(g, bl2, sl2, p) == if p == a then c else Cap(g, bl, sl, p) {}
  }

  lemma {:induction false} NotLive(g: Geometry, bl: Blocks, sl: Slices, live: map<nat, nat>, a: nat)
    requires LiveOk(g, bl, sl, live)
    ensures a in live <==> Cap(g, bl, sl, a) != 0
    ensures a in live ==> live[a] == Cap(g, bl, sl, a)
  {
    hide Cap;
  }

  /** It is enough to look at pages and offsets. */
  lemma {:induction false} CapSetAt(g: Geometry, bl: Blocks, sl: Slices, bl2: Blocks, sl2: Slices, page: nat, off: nat,
                                    c: nat)
    requires g.lo <= page && off < PageSize(g)
    requires forall q, o: nat {:trigger CapAt(g, bl2, sl2, q, o)} :: g.lo <= q && o < PageSize(g) ==>
      CapAt(g, bl2, sl2, q, o) == if q == page && o == off then c else CapAt(g, bl, sl, q, o)
    ensures CapSet(g, bl, sl, bl2, sl2, Addr(g, page, off), c)
    ensures Cap(g, bl, sl, Addr(g, page, off)) == CapAt(g, bl, sl, page, off)
  {
    AddrDecode(g, page, off);
    hide CapAt, Addr, PageAt, OffAt, Pow2;
    forall p: nat ensures Cap(g, bl2, sl2, p) == if p == Addr(g, page, off) then c else Cap(g, bl, sl, p) {
      if g.start <= p { AddrEncode(g, p); }
    }
  }

  // ---------- what each step allocates ----------

  lemma {:induction false} LargeTaken(g: Geometry, bl: Blocks, sl: Slices, page: nat, pages: nat)
    requires Matches(bl, sl) && IsFree(bl, page) && 0 < pages <= bl[page].len && g.lo <= page && Covered(bl, g.lo, g.hi)
    ensures CapSet(g, bl, sl, Taken(bl, page, pages, Large), sl, Addr(g, page, 0), pages * PageSize(g))
    ensures Cap(g, bl, sl, Addr(g, page, 0)) == 0 && 0 < pages * PageSize(g)
  {
    var bl2 := Taken(bl, page, pages, Large);
    assert page + pages in bl && pages < bl[page].len ==> Apart(bl, page, page + pages);
    MulAtLeast(pages, PageSize(g));
    CapSetAt(g, bl, sl, bl2, sl, page, 0, pages * PageSize(g));
  }

  /** A chunk of a page has its own address, and no other chunk of the page has it. */
  lemma {:induction false} ChunkAt(g: Geometry, shift: nat, i: nat, off: nat)
    requires GeometryOk(g) && ShiftOk(g, shift) && i < Count(g, shift)
    ensures i * Pow2(shift) < PageSize(g)
    ensures off == i * Pow2(shift) <==> Rem(off, Pow2(shift)) == 0 && Quot(off, Pow2(shift)) == i
  {
    ChunkDecode(g, shift, i);
  }

  lemma {:induction false} ChunkSet(g: Geometry, bl: Blocks, sl: Slices, sl2: Slices, page: nat, i: nat, on: bool)
    requires GeometryOk(g) && Matches(bl, sl) && page in sl && g.lo <= page && ShiftOk(g, sl[page].shift) &&
      i < Count(g, sl[page].shift)
    requires sl2 == Used(sl, page, i, on)
    ensures
      var p := Pow2(sl[page].shift);
      CapSet(g, bl, sl, bl, sl2, Addr(g, page, i * p), if on then p else 0) &&
      Cap(g, bl, sl, Addr(g, page, i * p)) == if i in sl[page].used then p else 0
  {
    var shift := sl[page].shift;
    var p := Pow2(shift);
    ChunkAt(g, shift, i, i * p);
    forall q, o: nat | g.lo <= q && o < PageSize(g)
      ensures CapAt(g, bl, sl2, q, o) == if q == page && o == i * p then if on then p else 0 else CapAt(g, bl, sl, q, o)
    {
      ChunkAt(g, shift, i, o);
    }
    CapSetAt(g, bl, sl, bl, sl2, page, i * p, if on then p else 0);
  }

  lemma {:induction false} FreshTaken(g: Geometry, bl: Blocks, sl: Slices, page: nat, shift: nat)
    requires GeometryOk(g) && Matches(bl, sl) && IsFree(bl, page) && 0 < bl[page].len && g.lo <= page &&
      ShiftOk(g, shift)
    requires Covered(bl, g.lo, g.hi)
    ensures
      var r := Reserved(g, shift);
      CapSet(g, bl, sl, Taken(bl, page, 1, Chunks(KindOf(g, shift))), sl[page := Slice(shift, {r})],
             Addr(g, page, r * Pow2(shift)), Pow2(shift)) &&
      Cap(g, bl, sl, Addr(g, page, r * Pow2(shift))) == 0
  {
    var r, p := Reserved(g, shift), Pow2(shift);
    var bl2, sl2 := Taken(bl, page, 1, Chunks(KindOf(g, shift))), sl[page := Slice(shift, {r})];
    ReservedFacts(g, shift);
    ChunkAt(g, shift, r, r * p);
    assert page + 1 in bl && 1 < bl[page].len ==> Apart(bl, page, page + 1);
    forall q, o: nat | g.lo <= q && o < PageSize(g)
      ensures CapAt(g, bl2, sl2, q, o) == if q == page && o == r * p then p else CapAt(g, bl, sl, q, o)
    {
      ChunkAt(g, shift, r, o);
    }
    CapSetAt(g, bl, sl, bl2, sl2, page, r * p, p);
  }

  lemma {:induction false} LargeFreed(g: Geometry, bl: Blocks, sl: Slices, page: nat, p: Option<nat>)
    requires Matches(bl, sl) && page in bl && bl[page].use.Large? && 0 < bl[page].len && g.lo <= page &&
      Covered(bl, g.lo, g.hi)
    requires LeftOf(bl, page, p) && (p.Some? ==> 0 < bl[p.value].len)
    ensures CapSet(g, bl, sl, Freed(bl, page, p), sl, Addr(g, page, 0), 0)
    ensures Cap(g, bl, sl, Addr(g, page, 0)) == bl[page].len * PageSize(g)
  {
    var bl2 := Freed(bl, page, p);
    forall q, o: nat | g.lo <= q && o < PageSize(g)
      ensures CapAt(g, bl2, sl, q, o) == if q == page && o == 0 then 0 else CapAt(g, bl, sl, q, o)
    {
      assert q in sl <==> q in bl && bl[q].use.Chunks?;
    }
    CapSetAt(g, bl, sl, bl2, sl, page, 0, 0);
  }

  lemma {:induction false} EmptyGone(g: Geometry, bl: Blocks, sl: Slices, page: nat, p: Option<nat>,
                                     live: map<nat, nat>)
    requires Matches(bl, sl) && page in sl && page in bl && sl[page].used == {} && 0 < bl[page].len &&
      Covered(bl, g.lo, g.hi)
    requires LeftOf(bl, page, p) && (p.Some? ==> 0 < bl[p.value].len) && !IsFree(bl, page)
    requires LiveOk(g, bl, sl, live)
    ensures LiveOk(g, Freed(bl, page, p), sl - {page}, live)
  {
    var bl2, sl2 := Freed(bl, page, p), sl - {page};
    forall q, o: nat ensures CapAt(g, bl2, sl2, q, o) == CapAt(g, bl, sl, q, o) {
      assert q in sl <==> q in bl && bl[q].use.Chunks?;
    }
    forall q: nat ensures Cap(g, bl2, sl2, q) == Cap(g, bl, sl, q) {}
  }

  // ---------- what is always true of the live allocations ----------

  /** The block an allocation lies in. */
  lemma {:induction false} Extent(g: Geometry, d: seq<Page>, mem: Memory, bl: Blocks, sl: Slices, lists: Lists,
                                  p: nat) returns (t: nat)
    requires GeometryOk(g) && Covered(bl, g.lo, g.hi) && ChunksOk(g, d, mem, bl, sl, lists) && Cap(g, bl, sl, p) != 0
    ensures t in bl && g.lo <= t && End(bl, t) <= g.hi && t == PageAt(g, p) && g.start <= p
    ensures Addr(g, t, 0) <= p && p + Cap(g, bl, sl, p) <= Addr(g, End(bl, t), 0)
    ensures bl[t].use.Large? ==> p == Addr(g, t, 0) && Cap(g, bl, sl, p) == bl[t].len * PageSize(g)
    ensures !bl[t].use.Large? ==> t in sl && ShiftOk(g, sl[t].shift) && Cap(g, bl, sl, p) == Pow2(sl[t].shift)
    ensures !bl[t].use.Large? ==>
      exists i: nat :: i in sl[t].used && InRange(g, sl[t].shift, i) && p == Addr(g, t, 0) + i * Pow2(sl[t].shift)
  {
    t := PageAt(g, p);
    AddrEncode(g, p);
    if t in sl {
      assert t in bl && bl[t].use.Chunks? && SliceOk(g, d, mem, sl, t) && Placed(bl, g.lo, g.hi, t);
      var shift := sl[t].shift;
      var i := Quot(OffAt(g, p), Pow2(shift));
      assert InRange(g, shift, i);
      ChunkDecode(g, shift, i);
      NextPage(g, t, 1);
      assert p == Addr(g, t, 0) + i * Pow2(shift);
    } else {
      assert Placed(bl, g.lo, g.hi, t);
      NextPage(g, t, bl[t].len);
    }
  }

  lemma {:induction false} NextPage(g: Geometry, page: nat, n: nat)
    requires g.lo <= page
    ensures Addr(g, page + n, 0) == Addr(g, page, 0) + n * PageSize(g)
  {
    assert (page + n - g.lo) * PageSize(g) == (page - g.lo) * PageSize(g) + n * PageSize(g);
  }

  /** Live allocations do not overlap. */
  lemma {:induction false} LiveApart(g: Geometry, d: seq<Page>, mem: Memory, bl: Blocks, sl: Slices, lists: Lists,
                                     live: map<nat, nat>, p: nat, q: nat)
    requires GeometryOk(g) && Covered(bl, g.lo, g.hi) && ChunksOk(g, d, mem, bl, sl, lists) && LiveOk(g, bl, sl, live)
    requires p in live && q in live && p < q
    ensures p + live[p] <= q
  {
    assert Cap(g, bl, sl, p) == live[p] && Cap(g, bl, sl, q) == live[q];
    var t := Extent(g, d, mem, bl, sl, lists, p);
    var u := Extent(g, d, mem, bl, sl, lists, q);
    hide ChunksOk, Cap, LiveOk, Addr, Pow2, SliceOk;
    assert Placed(bl, g.lo, g.hi, t) && Placed(bl, g.lo, g.hi, u);
    if t == u {
      var shift := sl[t].shift;
      var i: nat :| i in sl[t].used && p == Addr(g, t, 0) + i * Pow2(shift);
      var j: nat :| j in sl[t].used && q == Addr(g, t, 0) + j * Pow2(shift);
      ChunkOrder(Pow2(shift), i, j);
    } else if t < u {
      assert Apart(bl, t, u);
      AddrMono(g, End(bl, t), u);
    } else {
      assert Apart(bl, u, t);
      AddrMono(g, End(bl, u), t);
    }
  }

  lemma {:induction false} AddrMono(g: Geometry, a: nat, b: nat)
    requires g.lo <= a <= b
    ensures Addr(g, a, 0) <= Addr(g, b, 0)
  {
    assert (b - g.lo) * PageSize(g) == (a - g.lo) * PageSize(g) + (b - a) * PageSize(g);
  }

  lemma {:induction false} ChunkOrder(b: nat, i: nat, j: nat)
    requires 0 < b && i * b < j * b
    ensures i * b + b <= j * b
  {
    var d := j - i;
    assert d * b == j * b - i * b;
    MulAtLeast(d, b);
  }

  /** Live allocations lie inside the data pages. */
  lemma {:induction false} LiveInside(g: Geometry, d: seq<Page>, mem: Memory, bl: Blocks, sl: Slices, lists: Lists,
                                      live: map<nat, nat>, p: nat)
    requires GeometryOk(g) && Covered(bl, g.lo, g.hi) && ChunksOk(g, d, mem, bl, sl, lists) &&
      LiveOk(g, bl, sl, live) && p in live
    ensures g.start <= p && p + live[p] <= g.start + (g.hi - g.lo) * PageSize(g)
  {
    assert Cap(g, bl, sl, p) == live[p];
    var t := Extent(g, d, mem, bl, sl, lists, p);
    AddrMono(g, End(bl, t), g.hi);
    AddrMono(g, g.lo, t);
    hide Addr;
    NextPage(g, g.lo, g.hi - g.lo);
    FirstPage(g);
  }

  lemma {:induction false} FirstPage(g: Geometry)
    ensures Addr(g, g.lo, 0) == g.start
  {
  }

  /** Chunks are aligned to their size, allocations of whole pages to the page size. */
  lemma {:induction false} LiveAligned(g: Geometry, d: seq<Page>, mem: Memory, bl: Blocks, sl: Slices, lists: Lists,
                                       live: map<nat, nat>, p: nat)
    requires GeometryOk(g) && Covered(bl, g.lo, g.hi) && ChunksOk(g, d, mem, bl, sl, lists) &&
      LiveOk(g, bl, sl, live) && p in live
    ensures 0 < live[p] && Rem(p, if live[p] < PageSize(g) then live[p] else PageSize(g)) == 0
  {
    assert Cap(g, bl, sl, p) == live[p];
    var t := Extent(g, d, mem, bl, sl, lists, p);
    hide ChunksOk, Cap, LiveOk, SliceOk, Addr, Pow2;
    assert Placed(bl, g.lo, g.hi, t);
    if bl[t].use.Large? {
      MulAtLeast(bl[t].len - 1, PageSize(g));
      assert bl[t].len * PageSize(g) == PageSize(g) + (bl[t].len - 1) * PageSize(g);
      AddrAligned(g, t, 1, PageSize(g), 0);
    } else {
      var shift := sl[t].shift;
      var i: nat :| i in sl[t].used && InRange(g, shift, i) && p == Addr(g, t, 0) + i * Pow2(shift);
      CountFacts(g, shift);
      ChunkOrder(Pow2(shift), 0, 1);
      AddrAligned(g, t, Count(g, shift), Pow2(shift), i);
      SmallerThanPage(Count(g, shift), Pow2(shift));
    }
  }

  lemma {:induction false} SmallerThanPage(c: nat, s: nat)
    requires 2 <= c && 0 < s
    ensures s < c * s
  {
    MulAtLeast(c - 1, s);
    assert c * s == s + (c - 1) * s;
  }

  lemma {:induction false} AddrAligned(g: Geometry, t: nat, c: nat, s: nat, i: nat)
    requires GeometryOk(g) && g.lo <= t && 0 < s && PageSize(g) == c * s
    ensures Rem(Addr(g, t, 0) + i * s, s) == 0
  {
    var k := Quot(g.start, PageSize(g));
    assert g.start == k * PageSize(g) by { assert Rem(g.start, PageSize(g)) == 0; }
    hide Pow2;
    Aligned(k, t - g.lo, c, s, i);
    assert Addr(g, t, 0) + i * s == ((k + (t - g.lo)) * c + i) * s;
    MulDiv((k + (t - g.lo)) * c + i, s);
  }

  lemma {:induction false} Aligned(a: nat, b: nat, c: nat, s: nat, i: nat)
    ensures ((a + b) * c + i) * s == a * (c * s) + b * (c * s) + i * s
  {
    assert (a + b) * c == a * c + b * c;
    assert a * (c * s) == a * c * s && b * (c * s) == b * c * s;
  }

  /** Live allocations do not overlap the bitmap of a page of small chunks. */
  lemma {:induction false} LiveOffBitmap(g: Geometry, d: seq<Page>, mem: Memory, bl: Blocks, sl: Slices, lists: Lists,
                                         live: map<nat, nat>, p: nat, x: nat)
    requires GeometryOk(g) && Covered(bl, g.lo, g.hi) && ChunksOk(g, d, mem, bl, sl, lists) &&
      LiveOk(g, bl, sl, live) && p in live
    requires x in sl && ShiftOk(g, sl[x].shift) && KindOf(g, sl[x].shift).SMALL?
    ensures g.lo <= x && (p + live[p] <= Addr(g, x, 0) || Addr(g, x, 0) + 8 * Words(g, sl[x].shift) <= p)
  {
    assert Cap(g, bl, sl, p) == live[p] && SliceOk(g, d, mem, sl, x) && x in bl;
    var t := Extent(g, d, mem, bl, sl, lists, p);
    var shift := sl[x].shift;
    hide ChunksOk, Cap, LiveOk, SliceOk, Addr, Pow2;
    ReservedFacts(g, shift);
    assert Placed(bl, g.lo, g.hi, x) && Placed(bl, g.lo, g.hi, t);
    hide Reserved, Words;
    if t == x {
      var i: nat :| i in sl[t].used && InRange(g, shift, i) && p == Addr(g, t, 0) + i * Pow2(shift);
      MulMono(Reserved(g, shift), i, Pow2(shift));
    } else if t < x {
      assert Apart(bl, t, x);
      AddrMono(g, End(bl, t), x);
    } else {
      NextPage(g, x, 1);
      AddrMono(g, x + 1, t);
      CountFacts(g, shift);
      MulMono(Reserved(g, shift), Count(g, shift), Pow2(shift));
    }
  }

  // ---------- counters ----------

  /** The counters of a chunk size. */
  datatype Stat = Stat(total: nat, used: nat, reqs: nat, fails: nat)

  /** The chunks of a size that are in use. */
  ghost function UsedOf(sl: Slices, shift: nat): set<(nat, nat)> {
    set x, i | x in sl && i in sl[x].used && sl[x].shift == shift :: (x, i)
  }

  ghost function PagesOf(sl: Slices, shift: nat): set<nat> {
    set x | x in sl && sl[x].shift == shift
  }

  ghost predicate StatOk(g: Geometry, stat: Stat, sl: Slices, shift: nat)
    requires shift < g.ps
  {
    Reserved(g, shift) <= Count(g, shift) &&
    stat.used == |UsedOf(sl, shift)| && stat.total == |PagesOf(sl, shift)| * (Count(g, shift) - Reserved(g, shift))
  }

  ghost predicate StatsOk(g: Geometry, stats: seq<Stat>, sl: Slices) {
    |stats| == g.ps - g.minShift &&
    forall s: nat {:trigger ShiftOk(g, s)} :: ShiftOk(g, s) ==> StatOk(g, stats[s - g.minShift], sl, s)
  }

  lemma {:induction false} FlipCounts(sl: Slices, sl2: Slices, page: nat, i: nat, on: bool, s: nat)
    requires page in sl && (i in sl[page].used <==> !on)
    requires sl2 == Used(sl, page, i, on)
    ensures
      |UsedOf(sl2, s)| + (if !on && s == sl[page].shift then 1 else 0) ==
      |UsedOf(sl, s)| + (if on && s == sl[page].shift then 1 else 0)
    ensures PagesOf(sl2, s) == PagesOf(sl, s)
  {
    var shift := sl[page].shift;
    forall x, j ensures (x, j) in UsedOf(sl2, s) <==>
      if x == page && j == i && s == shift then on else (x, j) in UsedOf(sl, s) {}
    if s != shift {
      assert UsedOf(sl2, s) == UsedOf(sl, s);
    } else if on {
      assert UsedOf(sl2, s) == UsedOf(sl, s) + {(page, i)} && (page, i) !in UsedOf(sl, s);
    } else {
      assert UsedOf(sl, s) == UsedOf(sl2, s) + {(page, i)} && (page, i) !in UsedOf(sl2, s);
    }
  }

  lemma {:induction false} FreshCounts(sl: Slices, page: nat, shift: nat, i: nat, s: nat)
    requires page !in sl
    ensures
      var sl2 := sl[page := Slice(shift, {i})];
      |UsedOf(sl2, s)| == |UsedOf(sl, s)| + (if s == shift then 1 else 0) &&
      |PagesOf(sl2, s)| == |PagesOf(sl, s)| + (if s == shift then 1 else 0)
  {
    var sl2 := sl[page := Slice(shift, {i})];
    FreshUsed(sl, page, shift, i, s);
    forall x ensures x in PagesOf(sl2, s) <==> if x == page then s == shift else x in PagesOf(sl, s) {}
    hide UsedOf;
    assert PagesOf(sl2, s) == if s == shift then PagesOf(sl, s) + {page} else PagesOf(sl, s);
  }

  lemma {:induction false} FreshUsed(sl: Slices, page: nat, shift: nat, i: nat, s: nat)
    requires page !in sl
    ensures |UsedOf(sl[page := Slice(shift, {i})], s)| == |UsedOf(sl, s)| + (if s == shift then 1 else 0)
  {
    var sl2 := sl[page := Slice(shift, {i})];
    forall x, j ensures (x, j) in UsedOf(sl2, s) <==>
      if x == page && j == i then s == shift else (x, j) in UsedOf(sl, s) {}
    assert (page, i) !in UsedOf(sl, s);
    hide UsedOf;
    assert UsedOf(sl2, s) == if s == shift then UsedOf(sl, s) + {(page, i)} else UsedOf(sl, s);
  }

  lemma {:induction false} GoneCounts(sl: Slices, page: nat, s: nat)
    requires page in sl && sl[page].used == {}
    ensures
      var sl2 := sl - {page};
      |UsedOf(sl2, s)| == |UsedOf(sl, s)| &&
      |PagesOf(sl, s)| == |PagesOf(sl2, s)| + (if s == sl[page].shift then 1 else 0)
  {
    var sl2 := sl - {page};
    forall x, j ensures (x, j) in UsedOf(sl2, s) <==> (x, j) in UsedOf(sl, s) {}
    assert UsedOf(sl2, s) == UsedOf(sl, s);
    if s != sl[page].shift {
      assert PagesOf(sl2, s) == PagesOf(sl, s);
    } else {
      assert PagesOf(sl, s) == PagesOf(sl2, s) + {page} && page !in PagesOf(sl2, s);
    }
  }

  /** When nothing is live, all pages are one free block, every list is empty and every
      counter of chunks is zero. */
  lemma {:induction false} NothingLive(g: Geometry, d: seq<Page>, mem: Memory, bl: Blocks, sl: Slices, lists: Lists,
                                       stats: seq<Stat>)
    requires GeometryOk(g) && g.lo < g.hi && Tiled(bl, g.lo, g.hi) && ChunksOk(g, d, mem, bl, sl, lists) &&
      NoneEmpty(sl)
    requires StatsOk(g, stats, sl) && LiveOk(g, bl, sl, map[])
    ensures bl == map[g.lo := Block(g.hi - g.lo, Free)] && sl == map[]
    ensures forall s: nat {:trigger ShiftOk(g, s)} :: ShiftOk(g, s) ==>
      s in lists && lists[s] == [] && stats[s - g.minShift].used == 0 && stats[s - g.minShift].total == 0
  {
    forall x | x in bl ensures IsFree(bl, x) { BlockLive(g, d, mem, bl, sl, lists, x); }
    AllFreeIsOne(bl, g.lo, g.hi);
    assert sl == map[] by { forall x ensures x !in sl { assert x in sl ==> x in bl; } }
    hide Cap, LiveOk, Pow2, SliceOk, Tiled, Full;
    forall s: nat | ShiftOk(g, s)
      ensures s in lists && lists[s] == [] && stats[s - g.minShift].used == 0 && stats[s - g.minShift].total == 0
    {
      assert SlotOk(g, d, sl, lists, s);
      assert lists[s] != [] ==> lists[s][0] in lists[s] && InSlotOf(g, sl, lists[s][0], s);
      assert UsedOf(sl, s) == {} && PagesOf(sl, s) == {} && StatOk(g, stats[s - g.minShift], sl, s);
    }
  }

  /** A block that is not free holds a live allocation. */
  lemma {:induction false} BlockLive(g: Geometry, d: seq<Page>, mem: Memory, bl: Blocks, sl: Slices, lists: Lists,
                                     x: nat)
    requires GeometryOk(g) && Tiled(bl, g.lo, g.hi) && ChunksOk(g, d, mem, bl, sl, lists) && NoneEmpty(sl)
    requires LiveOk(g, bl, sl, map[]) && x in bl
    ensures IsFree(bl, x)
  {
    assert Placed(bl, g.lo, g.hi, x);
    if bl[x].use.Large? {
      LargeCap(g, bl, sl, x);
    } else if bl[x].use.Chunks? {
      assert x in sl && SliceOk(g, d, mem, sl, x);
      var i :| i in sl[x].used;
      assert InRange(g, sl[x].shift, i);
      ChunkCap(g, bl, sl, x, i);
    }
  }

  lemma {:induction false} LargeCap(g: Geometry, bl: Blocks, sl: Slices, x: nat)
    requires x in bl && bl[x].use.Large? && g.lo <= x && 0 < bl[x].len
    ensures Cap(g, bl, sl, Addr(g, x, 0)) == bl[x].len * PageSize(g) && 0 < bl[x].len * PageSize(g)
  {
    AddrDecode(g, x, 0);
    MulAtLeast(bl[x].len, PageSize(g));
  }

  lemma {:induction false} ChunkCap(g: Geometry, bl: Blocks, sl: Slices, x: nat, i: nat)
    requires GeometryOk(g) && Matches(bl, sl) && x in sl && g.lo <= x && ShiftOk(g, sl[x].shift) &&
      i < Count(g, sl[x].shift)
    ensures Cap(g, bl, sl, Addr(g, x, i * Pow2(sl[x].shift))) == if i in sl[x].used then Pow2(sl[x].shift) else 0
  {
    ChunkAt(g, sl[x].shift, i, i * Pow2(sl[x].shift));
    AddrDecode(g, x, i * Pow2(sl[x].shift));
  }

  // ---------- the whole pool ----------

  /** Everything the pool keeps, except that a page of chunks may have none in use. */
  ghost predicate CoreOk(g: Geometry, d: seq<Page>, mem: Memory, bl: Blocks, free: seq<nat>, sl: Slices, lists: Lists,
                         stats: seq<Stat>, live: map<nat, nat>) {
    GeometryOk(g) && PagesOk(d, bl, free, g.lo, g.hi) && ChunksOk(g, d, mem, bl, sl, lists) &&
    StatsOk(g, stats, sl) && LiveOk(g, bl, sl, live)
  }

  /** Everything the pool keeps between calls. */
  ghost predicate PoolOk(g: Geometry, d: seq<Page>, mem: Memory, bl: Blocks, free: seq<nat>, sl: Slices, lists: Lists,
                         stats: seq<Stat>, live: map<nat, nat>) {
    CoreOk(g, d, mem, bl, free, sl, lists, stats, live) && NoneEmpty(sl)
  }

  lemma {:induction false} PoolCore(g: Geometry, d: seq<Page>, mem: Memory, bl: Blocks, free: seq<nat>, sl: Slices,
                                    lists: Lists, stats: seq<Stat>, live: map<nat, nat>)
    requires PoolOk(g, d, mem, bl, free, sl, lists, stats, live)
    ensures CoreOk(g, d, mem, bl, free, sl, lists, stats, live) && NoneEmpty(sl) && GeometryOk(g)
  {
  }

  /** The counters `total` and `used` of a size change, the other sizes are as before. */
  ghost predicate Counted(g: Geometry, stats: seq<Stat>, stats2: seq<Stat>, shift: nat, total: int, used: int)
    requires ShiftOk(g, shift) && |stats| == g.ps - g.minShift
  {
    var k := shift - g.minShift;
    |stats2| == |stats| && stats2[k].total == stats[k].total + total && stats2[k].used == stats[k].used + used &&
    stats2[k].reqs == stats[k].reqs && stats2[k].fails == stats[k].fails &&
    forall j {:trigger stats2[j]} :: 0 <= j < |stats| && j != k ==> stats2[j] == stats[j]
  }

  /** A chunk of a page that has free ones was given out. */
  lemma {:induction false} StepTake(g: Geometry, d: seq<Page>, d1: seq<Page>, e: seq<Page>, mem: Memory, mem2: Memory,
                                    bl: Blocks, free: seq<nat>, sl: Slices, lists: Lists, stats: seq<Stat>,
                                    stats2: seq<Stat>, live: map<nat, nat>, page: nat, shift: nat, i: nat)
    requires PoolOk(g, d, mem, bl, free, sl, lists, stats, live) &&
      Took(g, d, d1, e, mem, mem2, sl, lists, page, shift, i)
    requires Counted(g, stats, stats2, shift, 0, 1)
    ensures g.lo <= page
    ensures
      var a, sl2 := ChunkAddr(g, page, shift, i), Used(sl, page, i, true);
      PoolOk(g, e, mem2, bl, free, sl2, TakenLists(g, lists, sl2[page]), stats2, live[a := Pow2(shift)]) && a !in live
    ensures InRange(g, shift, i) && page in sl && sl[page].shift == shift && i !in sl[page].used && forall j ::
      Reserved(g, shift) <= j < i ==> j in sl[page].used
    ensures ContentsKept(g, mem, mem2, live) && PagesOk(e, bl, free, g.lo, g.hi)
  {
    var sl2 := Used(sl, page, i, true);
    assert SliceOk(g, d, mem, sl, page) && Matches(bl, sl) && TookBit(g, d, d1, mem, mem2, sl, lists, page, shift, i);
    assert page in sl && g.lo <= page && sl[page].shift == shift && i < Count(g, shift) && i !in sl[page].used;
    assert i in sl2[page].used && NoneEmpty(sl2);
    hide PagesOk, ChunksOk, SliceOk, Took, TookBit, Cap, Pow2, Matches, Count, Reserved, Full, LiveOk, StatsOk,
      NoneEmpty, Counted, CapSet;
    TakenChunk(g, d, d1, e, mem, mem2, bl, sl, lists, page, shift, i);
    SlotWritesPages(d, e, bl, free, g.lo, g.hi);
    ChunkSet(g, bl, sl, sl2, page, i, true);
    var a := ChunkAddr(g, page, shift, i);
    CapSetLive(g, bl, sl, bl, sl2, a, Pow2(shift), live);
    NotLive(g, bl, sl, live, a);
    assert GeometryOk(g) && BitWritten(g, d, d1, mem, mem2, page, shift, i, true);
    BitOnly(g, d, d1, mem, mem2, page, shift, i, true);
    BitmapKept(g, d, mem, bl, free, sl, lists, stats, live, mem, mem2, page, shift);
    TakeStats(g, sl, stats, stats2, page, i);
  }

  lemma {:induction false} TakeStats(g: Geometry, sl: Slices, stats: seq<Stat>, stats2: seq<Stat>, page: nat, i: nat)
    requires StatsOk(g, stats, sl) && page in sl && i !in sl[page].used && ShiftOk(g, sl[page].shift)
    requires Counted(g, stats, stats2, sl[page].shift, 0, 1)
    ensures StatsOk(g, stats2, Used(sl, page, i, true))
  {
    var sl2 := Used(sl, page, i, true);
    forall s: nat | ShiftOk(g, s) ensures StatOk(g, stats2[s - g.minShift], sl2, s) {
      assert StatOk(g, stats[s - g.minShift], sl, s);
      FlipCounts(sl, sl2, page, i, true, s);
    }
  }

  /** A page without free chunks left was cut from the free pages. */
  lemma {:induction false} StepFresh(g: Geometry, d: seq<Page>, d1: seq<Page>, e: seq<Page>, mem: Memory, mem2: Memory,
                                     bl: Blocks, free: seq<nat>, free1: seq<nat>, sl: Slices, lists: Lists,
                                     stats: seq<Stat>, stats2: seq<Stat>, live: map<nat, nat>, page: nat, shift: nat)
    requires ShiftOk(g, shift) && IsFree(bl, page) && 0 < bl[page].len && g.lo <= page < |e| &&
      |stats| == g.ps - g.minShift
    requires Counted(g, stats, stats2, shift, Count(g, shift) - Reserved(g, shift), 1)
    requires KeepsUsed(d, d1, bl) && Listed1(g, d1, e, page, shift) && FirstTaken(g, e, mem, mem2, page, shift)
    requires shift in lists && lists[shift] == [] && PagesOk(d1, Taken(bl, page, 1, Large), free1, g.lo, g.hi)
    requires PoolOk(g, d, mem, bl, free, sl, lists, stats, live)
    ensures
      UnusedPages(Taken(bl, page, 1, Chunks(KindOf(g, shift))), g.lo, g.hi) ==
      UnusedPages(Taken(bl, page, 1, Large), g.lo, g.hi)
    ensures
      var r := Reserved(g, shift);
      var a, bl2, sl2 := ChunkAddr(g, page, shift, r), Taken(bl, page, 1, Chunks(KindOf(g, shift))),
        sl[page := Slice(shift, {r})];
      PoolOk(g, e, mem2, bl2, free1, sl2, lists[shift := [page]], stats2, live[a := Pow2(shift)]) && a !in live
    ensures ContentsKept(g, mem, mem2, live)
  {
    var r, bl1 := Reserved(g, shift), Taken(bl, page, 1, Large);
    var a, bl2, sl2 := ChunkAddr(g, page, shift, r), Taken(bl, page, 1, Chunks(KindOf(g, shift))),
      sl[page := Slice(shift, {r})];
    assert Matches(bl, sl) && page !in sl && g.hi <= |d| && Covered(bl, g.lo, g.hi) && NoneEmpty(sl2);
    hide PagesOk, ChunksOk, Pow2, Matches, LiveOk, StatsOk, NoneEmpty, Counted, Taken, Covered, FirstTaken, Listed1,
      KeepsUsed;
    TakenUse(bl, g.lo, g.hi, page, KindOf(g, shift));
    FreshSlice(g, d, d1, e, mem, mem2, bl, sl, lists, shift, page);
    FreshPages(g, d1, e, bl1, free1, shift, page);
    FreshLive(g, bl, sl, live, page, shift);
    FreshStats(g, sl, stats, stats2, page, shift);
    assert CoreOk(g, e, mem2, bl2, free1, sl2, lists[shift := [page]], stats2, live[a := Pow2(shift)]);
    hide CoreOk, ContentsKept;
    FreshContents(g, e, mem, mem2, bl2, free1, sl2, lists[shift := [page]], stats2, live, page, shift, a, Pow2(shift));
  }

  /** A new page of chunks is written where nothing was live. */
  lemma {:induction false} FreshContents(g: Geometry, e: seq<Page>, mem: Memory, mem2: Memory, bl: Blocks,
                                         free: seq<nat>, sl: Slices, lists: Lists, stats: seq<Stat>,
                                         live: map<nat, nat>, page: nat, shift: nat, a: nat, c: nat)
    requires page in sl && sl[page].shift == shift && ShiftOk(g, shift) && page < |e| && a !in live
    requires FirstTaken(g, e, mem, mem2, page, shift) && CoreOk(g, e, mem2, bl, free, sl, lists, stats, live[a := c])
    ensures ContentsKept(g, mem, mem2, live)
  {
    hide CoreOk;
    FirstOnly(g, e, mem, mem2, page, shift);
    BitmapKept(g, e, mem2, bl, free, sl, lists, stats, live[a := c], mem, mem2, page, shift);
    KeptFewer(g, mem, mem2, live[a := c], live);
  }

  lemma {:induction false} FirstOnly(g: Geometry, e: seq<Page>, mem: Memory, mem2: Memory, page: nat, shift: nat)
    requires ShiftOk(g, shift) && page < |e| && FirstTaken(g, e, mem, mem2, page, shift)
    ensures BitmapOnly(mem, mem2, page, Words(g, shift)) && (!KindOf(g, shift).SMALL? ==> mem2 == mem)
  {
  }

  lemma {:induction false} TakenUse(bl: Blocks, lo: nat, hi: nat, page: nat, kind: Kind)
    requires Covered(bl, lo, hi) && IsFree(bl, page) && 0 < bl[page].len
    ensures
      var bl1 := Taken(bl, page, 1, Large);
      page in bl1 && bl1[page] == Block(1, Large) &&
      Taken(bl, page, 1, Chunks(kind)) == bl1[page := Block(1, Chunks(kind))]
  {
    forall t | t in bl ensures t <= page || page + bl[page].len <= t { assert Apart(bl, page, t); }
  }

  lemma {:induction false} FreshLive(g: Geometry, bl: Blocks, sl: Slices, live: map<nat, nat>, page: nat, shift: nat)
    requires GeometryOk(g) && Matches(bl, sl) && IsFree(bl, page) && 0 < bl[page].len && g.lo <= page &&
      ShiftOk(g, shift)
    requires Covered(bl, g.lo, g.hi) && LiveOk(g, bl, sl, live)
    ensures
      var r := Reserved(g, shift);
      var a, bl2, sl2 := ChunkAddr(g, page, shift, r), Taken(bl, page, 1, Chunks(KindOf(g, shift))),
        sl[page := Slice(shift, {r})];
      LiveOk(g, bl2, sl2, live[a := Pow2(shift)]) && a !in live
  {
    hide LiveOk, CapSet, Cap, Taken, Matches, Covered, Reserved;
    var r := Reserved(g, shift);
    var a, bl2, sl2 := ChunkAddr(g, page, shift, r), Taken(bl, page, 1, Chunks(KindOf(g, shift))),
      sl[page := Slice(shift, {r})];
    FreshTaken(g, bl, sl, page, shift);
    CapSetLive(g, bl, sl, bl2, sl2, a, Pow2(shift), live);
    NotLive(g, bl, sl, live, a);
  }

  lemma {:induction false} OneMore(n: nat, k: int)
    ensures (n + 1) * k == n * k + k
  {
  }

  lemma {:induction false} FreshStats(g: Geometry, sl: Slices, stats: seq<Stat>, stats2: seq<Stat>, page: nat,
                                      shift: nat)
    requires StatsOk(g, stats, sl) && page !in sl && ShiftOk(g, shift)
    requires Counted(g, stats, stats2, shift, Count(g, shift) - Reserved(g, shift), 1)
    ensures StatsOk(g, stats2, sl[page := Slice(shift, {Reserved(g, shift)})])
  {
    var r := Reserved(g, shift);
    var sl2 := sl[page := Slice(shift, {r})];
    hide Count, UsedOf, PagesOf, Reserved;
    forall s: nat | ShiftOk(g, s) ensures StatOk(g, stats2[s - g.minShift], sl2, s) {
      assert StatOk(g, stats[s - g.minShift], sl, s);
      FreshCounts(sl, page, shift, r, s);
      OneMore(|PagesOf(sl, s)|, Count(g, s) - Reserved(g, s));
    }
  }

  /** Writes that spare the list heads and the pages of chunks. */
  lemma {:induction false} SameSlots(g: Geometry, d: seq<Page>, e: seq<Page>, mem: Memory, bl: Blocks, bl2: Blocks,
                                     sl: Slices, lists: Lists)
    requires GeometryOk(g) && ChunksOk(g, d, mem, bl, sl, lists) && Matches(bl2, sl) && |e| == |d|
    requires forall z: nat {:trigger e[z]} :: z < |d| && (z in sl || FREE_HEAD < z < g.lo) ==> e[z] == d[z]
    ensures ChunksOk(g, e, mem, bl2, sl, lists)
  {
    forall z | z in sl ensures SliceOk(g, e, mem, sl, z) {
      assert SliceOk(g, d, mem, sl, z);
      OtherSlice(g, d, e, mem, mem, sl, sl, z);
    }
    forall s | ShiftOk(g, s) ensures SlotOk(g, e, sl, lists, s) {
      assert SlotOk(g, d, sl, lists, s);
      OtherSlot(g, d, e, sl, sl, lists, lists, s);
    }
  }

  /** Whole pages were taken. */
  lemma {:induction false} StepLarge(g: Geometry, d: seq<Page>, e: seq<Page>, mem: Memory, bl: Blocks, free: seq<nat>,
                                     free1: seq<nat>, sl: Slices, lists: Lists, stats: seq<Stat>, live: map<nat, nat>,
                                     page: nat, pages: nat)
    requires IsFree(bl, page) && 0 < pages <= bl[page].len && g.lo <= page
    requires KeepsUsed(d, e, bl) && PagesOk(e, Taken(bl, page, pages, Large), free1, g.lo, g.hi)
    requires PoolOk(g, d, mem, bl, free, sl, lists, stats, live)
    ensures
      var a, bl2 := Addr(g, page, 0), Taken(bl, page, pages, Large);
      PoolOk(g, e, mem, bl2, free1, sl, lists, stats, live[a := pages * PageSize(g)]) && a !in live
  {
    var a, bl2 := Addr(g, page, 0), Taken(bl, page, pages, Large);
    assert Placed(bl, g.lo, g.hi, page) && Matches(bl, sl) && Covered(bl, g.lo, g.hi);
    LargeMatches(g, d, e, bl, sl, page, pages);
    hide PagesOk, Cap, Pow2, Matches, LiveOk, StatsOk, NoneEmpty, CapSet, Taken, Covered, KeepsUsed;
    SameSlots(g, d, e, mem, bl, bl2, sl, lists);
    hide ChunksOk;
    LargeTaken(g, bl, sl, page, pages);
    CapSetLive(g, bl, sl, bl2, sl, a, pages * PageSize(g), live);
    NotLive(g, bl, sl, live, a);
  }

  lemma {:induction false} LargeMatches(g: Geometry, d: seq<Page>, e: seq<Page>, bl: Blocks, sl: Slices, page: nat,
                                        pages: nat)
    requires Covered(bl, g.lo, g.hi) && Matches(bl, sl) && IsFree(bl, page) && 0 < pages <= bl[page].len &&
      KeepsUsed(d, e, bl)
    ensures Matches(Taken(bl, page, pages, Large), sl)
    ensures FREE_HEAD < g.lo ==> forall z: nat {:trigger e[z]} ::
      z < |e| && (z in sl || FREE_HEAD < z < g.lo) ==> e[z] == d[z]
  {
    var bl2 := Taken(bl, page, pages, Large);
    assert page + pages in bl && pages < bl[page].len ==> Apart(bl, page, page + pages);
    forall x ensures x in sl <==> x in bl2 && bl2[x].use.Chunks? { assert x in sl <==> x in bl && bl[x].use.Chunks?; }
    if FREE_HEAD < g.lo { KeptSlots(g, d, e, bl, sl); }
  }

  /** Taking pages writes no list head of chunks and no page of chunks. */
  lemma {:induction false} KeptSlots(g: Geometry, d: seq<Page>, e: seq<Page>, bl: Blocks, sl: Slices)
    requires Covered(bl, g.lo, g.hi) && Matches(bl, sl) && KeepsUsed(d, e, bl) && FREE_HEAD < g.lo
    ensures forall z: nat {:trigger e[z]} :: z < |e| && (z in sl || FREE_HEAD < z < g.lo) ==> e[z] == d[z]
  {
    forall z: nat | z < |e| && (z in sl || FREE_HEAD < z < g.lo) ensures e[z] == d[z] {
      assert z in sl ==> z in bl && Placed(bl, g.lo, g.hi, z);
      forall s ensures !(IsFree(bl, s) && Within(bl, s, z)) {
        assert s in bl ==> Placed(bl, g.lo, g.hi, s);
        assert s in bl && z in bl ==> Apart(bl, s, z) && Apart(bl, z, s);
      }
      assert !FreePage(bl, z) && z != FREE_HEAD;
    }
  }

  /** A chunk was taken back. */
  lemma {:induction false} StepGive(g: Geometry, d: seq<Page>, d1: seq<Page>, e: seq<Page>, mem: Memory, mem2: Memory,
                                    bl: Blocks, free: seq<nat>, sl: Slices, lists: Lists, stats: seq<Stat>,
                                    stats2: seq<Stat>, live: map<nat, nat>, page: nat, shift: nat, i: nat)
    requires page in sl && sl[page].shift == shift && ShiftOk(g, shift) && |stats| == g.ps - g.minShift &&
      shift in lists
    requires Counted(g, stats, stats2, shift, 0, -1) && Gave(g, d, d1, e, mem, mem2, sl, lists, page, i)
    requires PoolOk(g, d, mem, bl, free, sl, lists, stats, live)
    ensures g.lo <= page < |e| && e[page].next != 0
    ensures
      var a := ChunkAddr(g, page, shift, i);
      CoreOk(g, e, mem2, bl, free, Used(sl, page, i, false), GaveLists(g, lists, sl, page), stats2, live - {a}) &&
      a in live
    ensures ContentsKept(g, mem, mem2, live) && SliceOk(g, e, mem2, Used(sl, page, i, false), page) && NoneEmpty(sl)
  {
    var a, sl2 := ChunkAddr(g, page, shift, i), Used(sl, page, i, false);
    assert SliceOk(g, d, mem, sl, page) && Matches(bl, sl);
    assert i in sl[page].used && g.lo <= page && InRange(g, shift, i) && i < Count(g, shift);
    hide PagesOk, ChunksOk, SliceOk, Gave, Cap, Matches, Count, Reserved, Full, LiveOk, StatsOk, NoneEmpty, Counted,
      CapSet;
    FreedChunk(g, d, d1, e, mem, mem2, bl, sl, lists, page, i);
    SlotWritesPages(d, e, bl, free, g.lo, g.hi);
    ChunkSet(g, bl, sl, sl2, page, i, false);
    CapSetLive(g, bl, sl, bl, sl2, a, 0, live);
    NotLive(g, bl, sl, live, a);
    GiveStats(g, sl, stats, stats2, page, i);
    GiveContents(g, d, d1, e, mem, mem2, bl, free, sl, lists, stats, live, page, shift, i);
    assert SliceOk(g, e, mem2, sl2, page) by { OneSlice(g, e, mem2, bl, sl2, GaveLists(g, lists, sl, page), page); }
  }

  lemma {:induction false} OneSlice(g: Geometry, d: seq<Page>, mem: Memory, bl: Blocks, sl: Slices, lists: Lists,
                                    page: nat)
    requires ChunksOk(g, d, mem, bl, sl, lists) && page in sl
    ensures SliceOk(g, d, mem, sl, page)
  {
  }

  /** Taking a chunk back writes no contents, not even those of the chunk. */
  lemma {:induction false} GiveContents(g: Geometry, d: seq<Page>, d1: seq<Page>, e: seq<Page>, mem: Memory,
                                        mem2: Memory, bl: Blocks, free: seq<nat>, sl: Slices, lists: Lists,
                                        stats: seq<Stat>, live: map<nat, nat>, page: nat, shift: nat, i: nat)
    requires page in sl && sl[page].shift == shift && ShiftOk(g, shift) && i < Count(g, shift)
    requires Gave(g, d, d1, e, mem, mem2, sl, lists, page, i) && CoreOk(g, d, mem, bl, free, sl, lists, stats, live)
    ensures ContentsKept(g, mem, mem2, live)
  {
    assert BitWritten(g, d1, e, mem, mem2, page, shift, i, false) && GeometryOk(g);
    hide Gave, CoreOk;
    BitOnly(g, d1, e, mem, mem2, page, shift, i, false);
    BitmapKept(g, d, mem, bl, free, sl, lists, stats, live, mem, mem2, page, shift);
  }

  lemma {:induction false} GiveStats(g: Geometry, sl: Slices, stats: seq<Stat>, stats2: seq<Stat>, page: nat, i: nat)
    requires StatsOk(g, stats, sl) && page in sl && i in sl[page].used && ShiftOk(g, sl[page].shift)
    requires Counted(g, stats, stats2, sl[page].shift, 0, -1)
    ensures StatsOk(g, stats2, Used(sl, page, i, false))
  {
    var sl2 := Used(sl, page, i, false);
    forall s: nat | ShiftOk(g, s) ensures StatOk(g, stats2[s - g.minShift], sl2, s) {
      assert StatOk(g, stats[s - g.minShift], sl, s);
      FlipCounts(sl, sl2, page, i, false, s);
    }
  }

  /** A page without chunks in use went back to the free pages. */
  lemma {:induction false} StepGone(g: Geometry, d: seq<Page>, w: seq<Page>, e: seq<Page>, mem: Memory, bl: Blocks,
                                    bl2: Blocks, free: seq<nat>, free2: seq<nat>, sl: Slices, lists: Lists,
                                    stats: seq<Stat>, stats2: seq<Stat>, live: map<nat, nat>, shift: nat, k: nat,
                                    p: Option<nat>)
    requires ShiftOk(g, shift) && shift in lists && k < |lists[shift]| && lists[shift][k] in sl &&
      sl[lists[shift][k]] == Slice(shift, {})
    requires |stats| == g.ps - g.minShift && Counted(g, stats, stats2, shift, Reserved(g, shift) - Count(g, shift), 0)
    requires lists[shift][k] in bl && 0 < bl[lists[shift][k]].len && !IsFree(bl, lists[shift][k])
    requires LeftOf(bl, lists[shift][k], p) && (p.Some? ==> 0 < bl[p.value].len) && bl2 == Freed(bl, lists[shift][k], p)
    requires SlotLeft(d, w, lists[shift][k], Head(g, shift), lists[shift], k, KindOf(g, shift))
    requires KeepsUsed(w, e, FreedAlone(bl, lists[shift][k])) && PagesOk(e, bl2, free2, g.lo, g.hi)
    requires CoreOk(g, d, mem, bl, free, sl, lists, stats, live)
    ensures CoreOk(g, e, mem, bl2, free2, sl - {lists[shift][k]}, lists[shift := Dropped(lists[shift], k)], stats2,
                   live)
  {
    assert Covered(bl, g.lo, g.hi) && Matches(bl, sl);
    hide PagesOk, ChunksOk, Covered, LiveOk, StatsOk, Freed, KeepsUsed, SlotLeft, Counted, Matches;
    GoneSlice(g, d, w, e, mem, bl, sl, lists, shift, k, p);
    EmptyGone(g, bl, sl, lists[shift][k], p, live);
    GoneStats(g, sl, stats, stats2, lists[shift][k]);
  }

  lemma {:induction false} GoneStats(g: Geometry, sl: Slices, stats: seq<Stat>, stats2: seq<Stat>, page: nat)
    requires StatsOk(g, stats, sl) && page in sl && sl[page].used == {} && ShiftOk(g, sl[page].shift)
    requires Counted(g, stats, stats2, sl[page].shift, Reserved(g, sl[page].shift) - Count(g, sl[page].shift), 0)
    ensures StatsOk(g, stats2, sl - {page})
  {
    hide Count, UsedOf, PagesOf, Reserved;
    forall s: nat | ShiftOk(g, s) ensures StatOk(g, stats2[s - g.minShift], sl - {page}, s) {
      assert StatOk(g, stats[s - g.minShift], sl, s);
      GoneCounts(sl, page, s);
      OneMore(|PagesOf(sl - {page}, s)|, Count(g, s) - Reserved(g, s));
    }
  }

  /** An allocation of whole pages was freed. */
  lemma {:induction false} StepLargeFreed(g: Geometry, d: seq<Page>, e: seq<Page>, mem: Memory, bl: Blocks, bl2: Blocks,
                                          free: seq<nat>, free2: seq<nat>, sl: Slices, lists: Lists, stats: seq<Stat>,
                                          live: map<nat, nat>, page: nat, p: Option<nat>)
    requires page in bl && bl[page].use.Large? && 0 < bl[page].len && g.lo <= page
    requires LeftOf(bl, page, p) && (p.Some? ==> 0 < bl[p.value].len) && bl2 == Freed(bl, page, p)
    requires KeepsUsed(d, e, FreedAlone(bl, page)) && PagesOk(e, bl2, free2, g.lo, g.hi)
    requires PoolOk(g, d, mem, bl, free, sl, lists, stats, live)
    ensures PoolOk(g, e, mem, bl2, free2, sl, lists, stats, live - {Addr(g, page, 0)}) && Addr(g, page, 0) in live
  {
    var a := Addr(g, page, 0);
    assert Covered(bl, g.lo, g.hi) && Matches(bl, sl) && Placed(bl, g.lo, g.hi, page);
    LargeFreedMatches(g, d, e, bl, sl, page, p);
    hide PagesOk, Covered, LiveOk, StatsOk, Freed, KeepsUsed, Matches, Cap, CapSet, NoneEmpty, LeftOf;
    SameSlots(g, d, e, mem, bl, bl2, sl, lists);
    hide ChunksOk;
    LargeFreed(g, bl, sl, page, p);
    MulAtLeast(bl[page].len, PageSize(g));
    CapSetLive(g, bl, sl, bl2, sl, a, 0, live);
    NotLive(g, bl, sl, live, a);
  }

  lemma {:induction false} LargeFreedMatches(g: Geometry, d: seq<Page>, e: seq<Page>, bl: Blocks, sl: Slices, page: nat,
                                             p: Option<nat>)
    requires GeometryOk(g) && Covered(bl, g.lo, g.hi) && Matches(bl, sl) && page in bl && bl[page].use.Large? &&
      0 < bl[page].len
    requires LeftOf(bl, page, p) && (p.Some? ==> 0 < bl[p.value].len) && KeepsUsed(d, e, FreedAlone(bl, page))
    ensures Matches(Freed(bl, page, p), sl)
    ensures forall z: nat {:trigger e[z]} :: z < |e| && (z in sl || FREE_HEAD < z < g.lo) ==> e[z] == d[z]
  {
    var nb, b0 := Freed(bl, page, p), FreedAlone(bl, page);
    forall x ensures x in sl <==> x in nb && nb[x].use.Chunks? { assert x in sl <==> x in bl && bl[x].use.Chunks?; }
    assert Covered(b0, g.lo, g.hi) by {
      forall t | t in b0 ensures Placed(b0, g.lo, g.hi, t) { assert Placed(bl, g.lo, g.hi, t); }
      forall t, u | t in b0 && u in b0 ensures Apart(b0, t, u) { assert Apart(bl, t, u); }
    }
    assert Matches(b0, sl) by {
      forall x ensures x in sl <==> x in b0 && b0[x].use.Chunks? { assert x in sl <==> x in bl && bl[x].use.Chunks?; }
    }
    KeptSlots(g, d, e, b0, sl);
  }

  // ---------- the contents of the allocations ----------

  /** Word `n` of `page` has bytes of the allocation of `c` bytes at `a`. */
  ghost predicate Overlaps(g: Geometry, a: nat, c: nat, page: nat, n: nat) {
    g.lo <= page && Addr(g, page, 0) + 8 * n < a + c && a < Addr(g, page, 0) + 8 * n + 8
  }

  /** No word of a live allocation is written. */
  ghost predicate ContentsKept(g: Geometry, mem: Memory, mem2: Memory, live: map<nat, nat>) {
    forall a, page, n: nat {:trigger a in live, (page, n) in mem} ::
      a in live && (page, n) in mem && Overlaps(g, a, live[a], page, n) ==>
      (page, n) in mem2 && mem2[(page, n)] == mem[(page, n)]
  }

  /** The bitmaps of pages of chunks are not part of any live allocation. */
  lemma {:induction false} BitmapKept(g: Geometry, d: seq<Page>, memNow: Memory, bl: Blocks, free: seq<nat>, sl: Slices,
                                      lists: Lists, stats: seq<Stat>, live: map<nat, nat>, mem: Memory, mem2: Memory,
                                      page: nat, shift: nat)
    requires page in sl && sl[page].shift == shift && ShiftOk(g, shift)
    requires BitmapOnly(mem, mem2, page, Words(g, shift)) && (!KindOf(g, shift).SMALL? ==> mem2 == mem)
    requires CoreOk(g, d, memNow, bl, free, sl, lists, stats, live)
    ensures ContentsKept(g, mem, mem2, live)
  {
    assert Covered(bl, g.lo, g.hi);
    hide PagesOk, ChunksOk, Covered, StatsOk, Words;
    forall a, z, n: nat | a in live && (z, n) in mem && Overlaps(g, a, live[a], z, n)
      ensures (z, n) in mem2 && mem2[(z, n)] == mem[(z, n)]
    {
      if z == page && KindOf(g, shift).SMALL? {
        LiveOffBitmap(g, d, memNow, bl, sl, lists, live, a, page);
      }
    }
  }

  lemma {:induction false} SameContents(g: Geometry, mem: Memory, live: map<nat, nat>)
    ensures ContentsKept(g, mem, mem, live)
  {
  }

  lemma {:induction false} KeptFewer(g: Geometry, mem: Memory, mem2: Memory, live: map<nat, nat>, few: map<nat, nat>)
    requires ContentsKept(g, mem, mem2, live) && forall a :: a in few ==> a in live && live[a] == few[a]
    ensures ContentsKept(g, mem, mem2, few)
  {
    hide Overlaps;
  }

  lemma {:induction false} KeptOn(g: Geometry, mem: Memory, mem2: Memory, mem3: Memory, live: map<nat, nat>,
                                  few: map<nat, nat>)
    requires ContentsKept(g, mem, mem2, live) && ContentsKept(g, mem2, mem3, live) && forall a ::
      a in few ==> a in live && live[a] == few[a]
    ensures ContentsKept(g, mem, mem3, few)
  {
    hide Overlaps;
  }

  // ---------- what clients write ----------

  /** The word lies in the allocation of `c` bytes at `a`. */
  ghost predicate WordIn(g: Geometry, a: nat, c: nat, page: nat, n: nat) {
    g.lo <= page && a <= Addr(g, page, 0) + 8 * n && Addr(g, page, 0) + 8 * n + 8 <= a + c
  }

  /** A page of chunks depends on the words of its bitmap only. */
  lemma {:induction false} BitmapFrame(g: Geometry, d: seq<Page>, mem: Memory, mem2: Memory, sl: Slices, z: nat)
    requires GeometryOk(g) && z in sl && SliceOk(g, d, mem, sl, z)
    requires KindOf(g, sl[z].shift).SMALL? ==>
      forall n: nat {:trigger (z, n) in mem} {:trigger (z, n) in mem2} ::
        n < Words(g, sl[z].shift) && (z, n) in mem ==> (z, n) in mem2 && mem2[(z, n)] == mem[(z, n)]
    ensures SliceOk(g, d, mem2, sl, z)
  {
    var shift := sl[z].shift;
    CountFacts(g, shift);
    hide Count, Words, Full, InRange;
    if KindOf(g, shift).SMALL? {
      assert FormOk(g, d, mem, z, shift) && BitmapOk(mem, z, Words(g, shift));
      forall n: nat | n < Words(g, shift) ensures WordOk(mem2, z, n) && (z, n) in mem && (z, n) in mem2 &&
        mem2[(z, n)] == mem[(z, n)] {
        assert WordOk(mem, z, n);
        assert (z, n) in mem2;
      }
      assert BitmapOk(mem2, z, Words(g, shift));
    }
    forall i: nat | i < Count(g, shift) ensures Marked(g, d, mem2, z, shift, i) <==> Marked(g, d, mem, z, shift, i) {
      var n := i / 64;
      assert KindOf(g, shift).SMALL? ==> n < Words(g, shift) && mem2[(z, n)] == mem[(z, n)];
    }
  }

  /** A word of a live allocation can hold anything. */
  lemma {:induction false} ClientWrites(g: Geometry, d: seq<Page>, mem: Memory, bl: Blocks, free: seq<nat>, sl: Slices,
                                        lists: Lists, stats: seq<Stat>, live: map<nat, nat>, a: nat, page: nat, n: nat,
                                        w: set<nat>)
    requires PoolOk(g, d, mem, bl, free, sl, lists, stats, live) && a in live && (page, n) in mem &&
      WordIn(g, a, live[a], page, n)
    ensures PoolOk(g, d, mem[(page, n) := w], bl, free, sl, lists, stats, live)
    ensures ContentsKept(g, mem, mem[(page, n) := w], live - {a})
  {
    var mem2 := mem[(page, n) := w];
    assert Covered(bl, g.lo, g.hi);
    hide PagesOk, Covered, StatsOk, Words, LiveOk, SlotOk;
    forall z | z in sl ensures SliceOk(g, d, mem2, sl, z) {
      assert SliceOk(g, d, mem, sl, z);
      hide SliceOk, ChunksOk;
      if KindOf(g, sl[z].shift).SMALL? {
        OneSliceOk(g, d, mem, sl, z);
        LiveOffBitmap(g, d, mem, bl, sl, lists, live, a, z);
      }
      BitmapFrame(g, d, mem, mem2, sl, z);
    }
    forall b, z, k: nat | b in live && b != a && (z, k) in mem &&
      Overlaps(g, b, live[b], z, k) ensures mem2[(z, k)] == mem[(z, k)] {
      hide ChunksOk;
      if b < a { LiveApart(g, d, mem, bl, sl, lists, live, b, a); }
        else { LiveApart(g, d, mem, bl, sl, lists, live, a, b); }
    }
  }

  lemma {:induction false} OneSliceOk(g: Geometry, d: seq<Page>, mem: Memory, sl: Slices, z: nat)
    requires z in sl && SliceOk(g, d, mem, sl, z)
    ensures ShiftOk(g, sl[z].shift) && g.lo <= z
  {
  }

  /** The counters of a page with a chunk in use can be lowered. */
  lemma {:induction false} CountersPositive(g: Geometry, stats: seq<Stat>, sl: Slices, page: nat, i: nat)
    requires StatsOk(g, stats, sl) && page in sl && ShiftOk(g, sl[page].shift) && i in sl[page].used
    ensures
      var k := sl[page].shift - g.minShift;
      k < |stats| && 1 <= stats[k].used && Count(g, sl[page].shift) - Reserved(g, sl[page].shift) <= stats[k].total
  {
    var s := sl[page].shift;
    assert StatOk(g, stats[s - g.minShift], sl, s);
    assert (page, i) in UsedOf(sl, s) && page in PagesOf(sl, s);
    assert UsedOf(sl, s) - {(page, i)} < UsedOf(sl, s) && PagesOf(sl, s) - {page} < PagesOf(sl, s);
    MulMono(1, |PagesOf(sl, s)|, Count(g, s) - Reserved(g, s));
  }

  /** What is live at an address, by the page it is in. */
  lemma {:induction false} LiveAt(g: Geometry, d: seq<Page>, mem: Memory, bl: Blocks, free: seq<nat>, sl: Slices,
                                  lists: Lists, stats: seq<Stat>, live: map<nat, nat>, p: nat)
    requires CoreOk(g, d, mem, bl, free, sl, lists, stats, live)
    ensures p < g.start ==> p !in live
    ensures g.start <= p ==>
      var t, off := PageAt(g, p), OffAt(g, p);
      Addr(g, t, off) == p && (g.hi <= t ==> p !in live) &&
      (t in bl && bl[t].use.Large? ==> (p in live <==> off == 0)) &&
      (t in sl ==> (p in live <==> Rem(off, Pow2(sl[t].shift)) == 0 && Quot(off, Pow2(sl[t].shift)) in sl[t].used)) &&
      (t !in sl && !(t in bl && bl[t].use.Large?) ==> p !in live)
  {
    NotLive(g, bl, sl, live, p);
    if g.start <= p {
      AddrEncode(g, p);
      var t := PageAt(g, p);
      assert t in bl ==> Placed(bl, g.lo, g.hi, t);
      assert t in sl <==> t in bl && bl[t].use.Chunks?;
      if t in bl { MulAtLeast(bl[t].len, PageSize(g)); }
    }
  }

  /** Addresses above the pages are in none of them. */
  lemma {:induction false} AbovePages(g: Geometry, p: nat)
    requires g.lo <= g.hi && g.start <= p
    ensures g.start + (g.hi - g.lo) * PageSize(g) <= p <==> g.hi <= PageAt(g, p)
  {
    var n, q, b := g.hi - g.lo, Quot(p - g.start, PageSize(g)), PageSize(g);
    assert p - g.start == q * b + Rem(p - g.start, b);
    if n <= q { MulMono(n, q, b); } else { MulMono(q + 1, n, b); assert (q + 1) * b == q * b + b; }
  }

  lemma {:induction false} BelowNext(g: Geometry, p: nat, page: nat)
    requires g.lo <= page && g.start <= p < g.start + (page - g.lo) * PageSize(g)
    ensures PageAt(g, p) < page
  {
    var n, q, b := page - g.lo, Quot(p - g.start, PageSize(g)), PageSize(g);
    assert p - g.start == q * b + Rem(p - g.start, b);
    if n <= q { MulMono(n, q, b); }
  }

  /** A chunk is marked if it is live or holds the bitmap. */
  lemma {:induction false} ChunkTests(g: Geometry, d: seq<Page>, mem: Memory, sl: Slices, page: nat, i: nat)
    requires GeometryOk(g) && page in sl && SliceOk(g, d, mem, sl, page) && i < Count(g, sl[page].shift)
    ensures page < |d| &&
      (Marked(g, d, mem, page, sl[page].shift, i) <==> i < Reserved(g, sl[page].shift) || i in sl[page].used)
  {
  }

  /** The first chunk of a page of small chunks holds the bitmap. With its mark cleared it
      passes for a free one. */
  lemma {:induction false} FirstCleared(g: Geometry, d: seq<Page>, mem: Memory, sl: Slices, x: nat)
    requires GeometryOk(g) && x in sl && SliceOk(g, d, mem, sl, x) && KindOf(g, sl[x].shift).SMALL?
    ensures (x, 0) in mem && x < |d| && 0 < Reserved(g, sl[x].shift) && Marked(g, d, mem, x, sl[x].shift, 0)
    ensures
      var shift, cleared := sl[x].shift, mem[(x, 0) := mem[(x, 0)] - {0}];
      !Marked(g, d, cleared, x, shift, 0) && !SliceOk(g, d, cleared, sl, x) &&
      ChunkAddr(g, x, shift, 0) == Addr(g, x, 0) && Overlaps(g, Addr(g, x, 0), Pow2(shift), x, 0)
  {
    var shift := sl[x].shift;
    ReservedFacts(g, shift);
    CountFacts(g, shift);
    ChunkTests(g, d, mem, sl, x, 0);
    hide Count;
    var cleared := mem[(x, 0) := mem[(x, 0)] - {0}];
    if SliceOk(g, d, cleared, sl, x) { ChunkTests(g, d, cleared, sl, x, 0); }
  }

  // ---------- a new pool ----------

  /** One free block of all pages, every list empty, every counter zero. */
  lemma {:induction false} NewPages(g: Geometry, d: seq<Page>)
    requires GeometryOk(g) && g.lo < g.hi <= |d| && d[FREE_HEAD].next == g.lo
    requires d[g.lo] == Page(Num(g.hi - g.lo), FREE_HEAD, Tagged(FREE_HEAD, PAGE))
    requires forall i {:trigger d[i]} :: g.lo < i < g.hi ==> d[i] == CLEARED_PAGE
    ensures PagesOk(d, map[g.lo := Block(g.hi - g.lo, Free)], [g.lo], g.lo, g.hi)
    ensures |UnusedPages(map[g.lo := Block(g.hi - g.lo, Free)], g.lo, g.hi)| == g.hi - g.lo
  {
    var bl, lo, hi := map[g.lo := Block(g.hi - g.lo, Free)], g.lo, g.hi;
    assert Placed(bl, lo, hi, lo);
    assert LinkOk(d, FREE_HEAD, [lo], PAGE, 0);
    assert Listed(d, FREE_HEAD, [lo], PAGE);
    forall i | lo < i < hi ensures Cleared(d, i) { assert d[i] == CLEARED_PAGE; }
    WholeCount(lo, hi);
  }

  /** The descriptors, as mps_slab_init writes them. */
  function NewPage(g: Geometry, i: nat): Page {
    if i == FREE_HEAD then Page(Num(0), g.lo, Tagged(0, PAGE))
    else if 2 <= i < g.lo then Page(Num(0), i, Tagged(0, PAGE))
    else if i == g.lo && g.lo <= g.hi then Page(Num(g.hi - g.lo), FREE_HEAD, Tagged(FREE_HEAD, PAGE))
    else CLEARED_PAGE
  }

  /** The data pages of a new pool file. */
  function NewMemory(g: Geometry): (mem: Memory)
    ensures MemOk(g, mem)
  {
    map page: nat, n: nat | g.lo <= page < g.hi && n < PageSize(g) / 8 :: (page, n) := {}
  }

  lemma {:induction false} NewPool(g: Geometry, d: seq<Page>, mem: Memory, bl: Blocks, free: seq<nat>, lists: Lists,
                                   stats: seq<Stat>)
    requires GeometryOk(g) && g.lo < g.hi <= |d| && MemOk(g, mem)
    requires forall i {:trigger d[i]} :: 0 <= i < |d| ==> d[i] == NewPage(g, i)
    requires bl == map[g.lo := Block(g.hi - g.lo, Free)] && free == [g.lo]
    requires forall s: nat {:trigger s in lists} :: ShiftOk(g, s) ==> s in lists && lists[s] == []
    requires |stats| == g.ps - g.minShift && forall i {:trigger stats[i]} ::
      0 <= i < |stats| ==> stats[i] == Stat(0, 0, 0, 0)
    ensures PoolOk(g, d, mem, bl, free, map[], lists, stats, map[]) && PagesOk(d, bl, free, g.lo, g.hi)
    ensures |UnusedPages(bl, g.lo, g.hi)| == g.hi - g.lo
  {
    NewPages(g, d);
    var sl: Slices := map[];
    hide PagesOk;
    forall s | ShiftOk(g, s) ensures SlotOk(g, d, sl, lists, s) {
      assert s in lists && d[Head(g, s)].next == Head(g, s);
    }
    forall s: nat | ShiftOk(g, s) ensures StatOk(g, stats[s - g.minShift], sl, s) {
      ReservedFacts(g, s);
      assert UsedOf(sl, s) == {} && PagesOf(sl, s) == {};
    }
    forall p: nat ensures Cap(g, bl, sl, p) == 0 {}
  }
}
