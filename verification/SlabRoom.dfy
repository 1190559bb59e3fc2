/** Whether there is room for a request, told from the live allocations alone: it does not
    matter in which order they were made, and a free never takes room away. */
module SlabRoom {
  import opened Powers
  import opened SlabList
  import opened SlabBlocks
  import opened SlabLayout
  import opened SlabChunks
  import opened SlabLive

  /** The allocation of `c` bytes at `a` has bytes of the page. */
  ghost predicate Touches(g: Geometry, a: nat, c: nat, page: nat) {
    g.lo <= page && Addr(g, page, 0) < a + c && a < Addr(g, page, 0) + PageSize(g)
  }

  /** No allocation has bytes of the page. */
  ghost predicate Clear(g: Geometry, live: map<nat, nat>, page: nat) {
    g.lo <= page < g.hi && forall a {:trigger a in live} :: a in live ==> !Touches(g, a, live[a], page)
  }

  ghost predicate ClearFrom(g: Geometry, live: map<nat, nat>, i: nat, k: nat) {
    g.lo <= i && i + k <= g.hi && forall j {:trigger Clear(g, live, j)} :: i <= j < i + k ==> Clear(g, live, j)
  }

  /** The page can give out a chunk: what it holds are chunks of that size, but not all. */
  ghost predicate Offers(g: Geometry, live: map<nat, nat>, shift: nat, page: nat) {
    g.lo <= page < g.hi && shift < g.ps &&
    (forall a {:trigger a in live} :: a in live && Touches(g, a, live[a], page) ==> live[a] == Pow2(shift)) &&
    exists i: nat :: InRange(g, shift, i) && ChunkAddr(g, page, shift, i) !in live
  }

  /** A request for `size` bytes succeeds where these allocations are live. */
  ghost predicate RoomIn(g: Geometry, live: map<nat, nat>, size: nat) {
    if size > PageSize(g) / 2 then exists i: nat :: ClearFrom(g, live, i, PagesFor(g, size))
    else exists shift: nat, page: nat :: IsClass(g, size, shift) && Offers(g, live, shift, page)
  }

  /** The bytes a request for `size` bytes is given. */
  ghost predicate Grants(g: Geometry, size: nat, c: nat) {
    if size > PageSize(g) / 2 then c == PagesFor(g, size) * PageSize(g)
    else exists shift: nat :: IsClass(g, size, shift) && c == Pow2(shift)
  }

  /** A place of `c` bytes that a request for `size` bytes may be given: large enough, aligned,
      in the pages, and clear of what is allocated. */
  ghost predicate Granted(g: Geometry, live: map<nat, nat>, size: nat, p: nat, c: nat) {
    p !in live && size <= c && 0 < c && Grants(g, size, c) && Rem(p, if c < PageSize(g) then c else PageSize(g)) == 0 &&
    g.start <= p && p + c <= g.start + (g.hi - g.lo) * PageSize(g) &&
    (forall q {:trigger q in live} :: q in live ==> p + c <= q || q + live[q] <= p) &&
    (size <= PageSize(g) / 2 ==> exists shift: nat :: IsClass(g, size, shift) && GivenChunk(g, live, shift, p))
  }

  /** The chunk at `p` is one that its page offers; a page without allocations is cut only if no
      other page offers a chunk of the size. */
  ghost predicate GivenChunk(g: Geometry, live: map<nat, nat>, shift: nat, p: nat) {
    g.start <= p &&
    var page := PageAt(g, p);
    Offers(g, live, shift, page) && (Clear(g, live, page) ==> OnlyClear(g, live, shift)) &&
    exists i: nat :: InRange(g, shift, i) && p == ChunkAddr(g, page, shift, i)
  }

  ghost predicate OnlyClear(g: Geometry, live: map<nat, nat>, shift: nat) {
    forall page: nat {:trigger Offers(g, live, shift, page)} :: Offers(g, live, shift, page) ==> Clear(g, live, page)
  }

  /** With fewer allocations there is at least as much room. */
  lemma {:induction false} RoomFewer(g: Geometry, live: map<nat, nat>, few: map<nat, nat>, size: nat)
    requires RoomIn(g, live, size) && forall a :: a in few ==> a in live && live[a] == few[a]
    ensures RoomIn(g, few, size)
  {
    hide Touches, PagesFor, PageSize, IsClass, InRange;
    if size > PageSize(g) / 2 {
      var i: nat :| ClearFrom(g, live, i, PagesFor(g, size));
      forall j | i <= j < i + PagesFor(g, size) ensures Clear(g, few, j) { assert Clear(g, live, j); }
      assert ClearFrom(g, few, i, PagesFor(g, size));
    } else {
      var shift: nat, page: nat :| IsClass(g, size, shift) && Offers(g, live, shift, page);
      assert Offers(g, few, shift, page);
    }
  }

  /** What an allocation says of the page it has bytes of. */
  lemma {:induction false} TouchedBlock(g: Geometry, d: seq<Page>, mem: Memory, bl: Blocks, sl: Slices, lists: Lists,
                                        live: map<nat, nat>, a: nat, page: nat, s: nat)
    requires GeometryOk(g) && Covered(bl, g.lo, g.hi) && ChunksOk(g, d, mem, bl, sl, lists) &&
      LiveOk(g, bl, sl, live) && a in live
    requires Touches(g, a, live[a], page) && Within(bl, s, page)
    ensures !bl[s].use.Free? && (bl[s].use.Chunks? ==> s in sl && live[a] == Pow2(sl[s].shift))
  {
    NotLive(g, bl, sl, live, a);
    var t := Extent(g, d, mem, bl, sl, lists, a);
    hide ChunksOk, Cap, LiveOk, Addr, PageSize;
    assert Placed(bl, g.lo, g.hi, s) && Placed(bl, g.lo, g.hi, t);
    NextPage(g, page, 1);
    if t < s {
      assert Apart(bl, t, s);
      AddrMono(g, End(bl, t), page);
    } else if s < t {
      assert Apart(bl, s, t);
      AddrMono(g, page + 1, t);
    } else {
      assert t in sl ==> Matches(bl, sl);
    }
  }

  /** What is allocated at the address of a chunk has bytes of its page. */
  lemma {:induction false} ChunkTouches(g: Geometry, shift: nat, page: nat, i: nat, c: nat)
    requires GeometryOk(g) && ShiftOk(g, shift) && g.lo <= page && i < Count(g, shift) && 0 < c
    ensures Touches(g, ChunkAddr(g, page, shift, i), c, page)
  {
    hide Pow2, Count, KindOf;
    ChunkDecode(g, shift, i);
    assert ChunkAddr(g, page, shift, i) == Addr(g, page, 0) + i * Pow2(shift);
    hide Addr, ChunkAddr;
  }

  /** A page that is not free has bytes of an allocation. */
  lemma {:induction false} UsedTouched(g: Geometry, d: seq<Page>, mem: Memory, bl: Blocks, sl: Slices, lists: Lists,
                                       live: map<nat, nat>, page: nat, s: nat) returns (a: nat)
    requires GeometryOk(g) && Covered(bl, g.lo, g.hi) && ChunksOk(g, d, mem, bl, sl, lists) &&
      LiveOk(g, bl, sl, live) && NoneEmpty(sl)
    requires Within(bl, s, page) && !bl[s].use.Free?
    ensures a in live && Touches(g, a, live[a], page)
    ensures bl[s].use.Large? ==> PageSize(g) <= live[a]
    ensures bl[s].use.Chunks? ==> s == page && s in sl && ShiftOk(g, sl[s].shift) && live[a] == Pow2(sl[s].shift)
  {
    assert Placed(bl, g.lo, g.hi, s);
    if bl[s].use.Large? {
      a := Addr(g, s, 0);
      LargeCap(g, bl, sl, s);
      NotLive(g, bl, sl, live, a);
      hide Cap, Addr, PageSize, ChunksOk, LiveOk;
      NextPage(g, s, bl[s].len);
      NextPage(g, page, 1);
      AddrMono(g, s, page);
      AddrMono(g, page + 1, End(bl, s));
      MulMono(1, bl[s].len, PageSize(g));
      Pow2Positive(g);
    } else {
      assert s in sl && SliceOk(g, d, mem, sl, s);
      var i :| i in sl[s].used;
      assert InRange(g, sl[s].shift, i);
      a := ChunkAddr(g, s, sl[s].shift, i);
      ChunkCap(g, bl, sl, s, i);
      CountFacts(g, sl[s].shift);
      NotLive(g, bl, sl, live, a);
      ChunkTouches(g, sl[s].shift, s, i, Pow2(sl[s].shift));
    }
  }

  lemma {:induction false} Pow2Positive(g: Geometry)
    ensures 0 < PageSize(g)
  {
  }

  /** The free pages are those without allocations. */
  lemma {:induction false} FreeIsClear(g: Geometry, d: seq<Page>, mem: Memory, bl: Blocks, sl: Slices, lists: Lists,
                                       live: map<nat, nat>, page: nat)
    requires GeometryOk(g) && Covered(bl, g.lo, g.hi) && ChunksOk(g, d, mem, bl, sl, lists) &&
      LiveOk(g, bl, sl, live) && NoneEmpty(sl)
    requires g.lo <= page < g.hi
    ensures FreePage(bl, page) <==> Clear(g, live, page)
  {
    var s := Owner(bl, g.lo, g.hi, page);
    hide ChunksOk, Covered, LiveOk, Touches, NoneEmpty;
    forall a | a in live && Touches(g, a, live[a], page) ensures !FreePage(bl, page) {
      TouchedBlock(g, d, mem, bl, sl, lists, live, a, page, s);
    }
    if !bl[s].use.Free? {
      var a := UsedTouched(g, d, mem, bl, sl, lists, live, page, s);
    }
  }

  /** A page of chunks with a free one, or a free page, can give out a chunk. */
  lemma {:induction false} ListedOffers(g: Geometry, d: seq<Page>, mem: Memory, bl: Blocks, sl: Slices, lists: Lists,
                                        live: map<nat, nat>, shift: nat, page: nat)
    requires GeometryOk(g) && Covered(bl, g.lo, g.hi) && ChunksOk(g, d, mem, bl, sl, lists) &&
      LiveOk(g, bl, sl, live) && NoneEmpty(sl)
    requires ShiftOk(g, shift) && g.lo <= page < g.hi && (FreePage(bl, page) || InSlotOf(g, sl, page, shift))
    ensures Offers(g, live, shift, page)
  {
    FreeIsClear(g, d, mem, bl, sl, lists, live, page);
    CountFacts(g, shift);
    ReservedFacts(g, shift);
    if FreePage(bl, page) {
      var i := Reserved(g, shift);
      NotWhole(g, d, mem, bl, sl, lists, live, shift, page, i);
      assert InRange(g, shift, i);
    } else {
      assert page in sl && sl[page].shift == shift && page in bl && Placed(bl, g.lo, g.hi, page) &&
        Within(bl, page, page);
      var i: nat :| Reserved(g, shift) <= i < Count(g, shift) && i !in sl[page].used;
      assert SliceOk(g, d, mem, sl, page) && InRange(g, shift, i);
      ChunkCap(g, bl, sl, page, i);
      NotLive(g, bl, sl, live, ChunkAddr(g, page, shift, i));
      hide ChunksOk, Covered, LiveOk, Touches, NoneEmpty, Count, Reserved;
      forall a | a in live && Touches(g, a, live[a], page) ensures live[a] == Pow2(shift) {
        TouchedBlock(g, d, mem, bl, sl, lists, live, a, page, page);
      }
    }
  }

  /** No chunk of a clear page is live. */
  lemma {:induction false} NotWhole(g: Geometry, d: seq<Page>, mem: Memory, bl: Blocks, sl: Slices, lists: Lists,
                                    live: map<nat, nat>, shift: nat, page: nat, i: nat)
    requires GeometryOk(g) && Covered(bl, g.lo, g.hi) && ChunksOk(g, d, mem, bl, sl, lists) && LiveOk(g, bl, sl, live)
    requires Clear(g, live, page) && ShiftOk(g, shift) && i < Count(g, shift)
    ensures ChunkAddr(g, page, shift, i) !in live
  {
    var a := ChunkAddr(g, page, shift, i);
    if a in live { LiveAligned(g, d, mem, bl, sl, lists, live, a); }
    ChunkTouches(g, shift, page, i, if a in live && 0 < live[a] then live[a] else 1);
    hide Touches, ChunkAddr, Count;
  }

  /** A page that can give out a chunk is free or has a free chunk of that size. */
  lemma {:induction false} OffersListed(g: Geometry, d: seq<Page>, mem: Memory, bl: Blocks, sl: Slices, lists: Lists,
                                        live: map<nat, nat>, shift: nat, page: nat)
    requires GeometryOk(g) && Covered(bl, g.lo, g.hi) && ChunksOk(g, d, mem, bl, sl, lists) &&
      LiveOk(g, bl, sl, live) && NoneEmpty(sl)
    requires ShiftOk(g, shift) && Offers(g, live, shift, page)
    ensures FreePage(bl, page) || InSlotOf(g, sl, page, shift)
  {
    var s := Owner(bl, g.lo, g.hi, page);
    if !bl[s].use.Free? {
      var a := UsedTouched(g, d, mem, bl, sl, lists, live, page, s);
      assert live[a] == Pow2(shift);
      CountFacts(g, shift);
      SmallerThanPage(Count(g, shift), Pow2(shift));
      SamePower(sl, s, shift);
      var i: nat :| InRange(g, shift, i) && ChunkAddr(g, page, shift, i) !in live;
      ChunkCap(g, bl, sl, page, i);
      NotLive(g, bl, sl, live, ChunkAddr(g, page, shift, i));
    }
  }

  lemma {:induction false} SamePower(sl: Slices, s: nat, shift: nat)
    ensures s in sl && Pow2(sl[s].shift) == Pow2(shift) ==> sl[s].shift == shift
  {
    if s in sl && Pow2(sl[s].shift) == Pow2(shift) { SameShift(sl[s].shift, shift); }
  }

  /** A chunk of a size can be given out if and only if some page offers one. */
  lemma {:induction false} ClassRoom(g: Geometry, d: seq<Page>, mem: Memory, bl: Blocks, sl: Slices, lists: Lists,
                                     live: map<nat, nat>, shift: nat)
    requires GeometryOk(g) && Covered(bl, g.lo, g.hi) && ChunksOk(g, d, mem, bl, sl, lists) &&
      LiveOk(g, bl, sl, live) && NoneEmpty(sl)
    requires ShiftOk(g, shift)
    ensures shift in lists
    ensures (lists[shift] != [] || exists i: nat :: FreeFrom(bl, g.lo, g.hi, i, 1)) <==> exists page: nat ::
      Offers(g, live, shift, page)
  {
    assert SlotOk(g, d, sl, lists, shift);
    hide LiveOk, NoneEmpty, Offers, InSlotOf, FreePage, Listed;
    if lists[shift] != [] {
      var x := lists[shift][0];
      assert x in lists[shift] && InSlotOf(g, sl, x, shift);
      SlotInPages(g, d, mem, bl, sl, lists, x, shift);
      ListedOffers(g, d, mem, bl, sl, lists, live, shift, x);
    }
    forall i: nat | FreeFrom(bl, g.lo, g.hi, i, 1) ensures Offers(g, live, shift, i) {
      ListedOffers(g, d, mem, bl, sl, lists, live, shift, i);
    }
    forall page: nat | Offers(g, live, shift, page) ensures lists[shift] != [] || exists i: nat ::
      FreeFrom(bl, g.lo, g.hi, i, 1) {
      OffersListed(g, d, mem, bl, sl, lists, live, shift, page);
      OffersIn(g, live, shift, page);
      if FreePage(bl, page) { assert FreeFrom(bl, g.lo, g.hi, page, 1); } else { assert page in lists[shift]; }
    }
  }

  lemma {:induction false} OffersIn(g: Geometry, live: map<nat, nat>, shift: nat, page: nat)
    requires Offers(g, live, shift, page)
    ensures g.lo <= page < g.hi
  {
  }

  lemma {:induction false} SlotInPages(g: Geometry, d: seq<Page>, mem: Memory, bl: Blocks, sl: Slices, lists: Lists,
                                       x: nat, shift: nat)
    requires ChunksOk(g, d, mem, bl, sl, lists) && InSlotOf(g, sl, x, shift)
    ensures g.lo <= x < g.hi
  {
    assert SliceOk(g, d, mem, sl, x);
  }

  /** A run of free pages is a run of pages without allocations. */
  lemma {:induction false} RunRoom(g: Geometry, d: seq<Page>, mem: Memory, bl: Blocks, sl: Slices, lists: Lists,
                                   live: map<nat, nat>, i: nat, k: nat)
    requires GeometryOk(g) && Covered(bl, g.lo, g.hi) && ChunksOk(g, d, mem, bl, sl, lists) &&
      LiveOk(g, bl, sl, live) && NoneEmpty(sl)
    ensures FreeFrom(bl, g.lo, g.hi, i, k) <==> ClearFrom(g, live, i, k)
  {
    hide Clear, FreePage, Covered, ChunksOk, LiveOk, NoneEmpty;
    if g.lo <= i && i + k <= g.hi {
      forall j: nat | i <= j < i + k ensures FreePage(bl, j) <==> Clear(g, live, j) {
        FreeIsClear(g, d, mem, bl, sl, lists, live, j);
      }
      assert FreeFrom(bl, g.lo, g.hi, i, k) ==> forall j: nat :: i <= j < i + k ==> FreePage(bl, j);
    }
  }

  /** A free chunk of a page in its list is one that may be given. */
  lemma {:induction false} UsedPageGives(g: Geometry, d: seq<Page>, mem: Memory, bl: Blocks, sl: Slices, lists: Lists,
                                         live: map<nat, nat>, shift: nat, page: nat, i: nat)
    requires GeometryOk(g) && Covered(bl, g.lo, g.hi) && ChunksOk(g, d, mem, bl, sl, lists) &&
      LiveOk(g, bl, sl, live) && NoneEmpty(sl)
    requires ShiftOk(g, shift) && page in sl && sl[page].shift == shift && InRange(g, shift, i) && i !in sl[page].used
    ensures g.lo <= page && GivenChunk(g, live, shift, ChunkAddr(g, page, shift, i))
  {
    assert SliceOk(g, d, mem, sl, page) && InSlotOf(g, sl, page, shift) && page in bl && Placed(bl, g.lo, g.hi, page);
    assert Within(bl, page, page);
    ListedOffers(g, d, mem, bl, sl, lists, live, shift, page);
    var a := UsedTouched(g, d, mem, bl, sl, lists, live, page, page);
    ChunkPage(g, shift, page, i);
    hide ChunksOk, Covered, LiveOk, NoneEmpty, Offers, ChunkAddr, InRange, SliceOk, Touches;
  }

  lemma {:induction false} ChunkPage(g: Geometry, shift: nat, page: nat, i: nat)
    requires GeometryOk(g) && ShiftOk(g, shift) && g.lo <= page && i < Count(g, shift)
    ensures PageAt(g, ChunkAddr(g, page, shift, i)) == page
  {
    ChunkDecode(g, shift, i);
    AddrDecode(g, page, i * Pow2(shift));
  }

  /** The first chunk of a free page may be given when no page is in the list. */
  lemma {:induction false} FreePageGives(g: Geometry, d: seq<Page>, mem: Memory, bl: Blocks, sl: Slices, lists: Lists,
                                         live: map<nat, nat>, shift: nat, page: nat)
    requires GeometryOk(g) && Covered(bl, g.lo, g.hi) && ChunksOk(g, d, mem, bl, sl, lists) &&
      LiveOk(g, bl, sl, live) && NoneEmpty(sl)
    requires ShiftOk(g, shift) && shift in lists && lists[shift] == [] && g.lo <= page < g.hi && FreePage(bl, page)
    ensures GivenChunk(g, live, shift, ChunkAddr(g, page, shift, Reserved(g, shift)))
  {
    ListedOffers(g, d, mem, bl, sl, lists, live, shift, page);
    CountFacts(g, shift);
    ReservedFacts(g, shift);
    assert InRange(g, shift, Reserved(g, shift));
    ChunkPage(g, shift, page, Reserved(g, shift));
    assert SlotOk(g, d, sl, lists, shift);
    hide ChunksOk, Covered, LiveOk, NoneEmpty, Offers, ChunkAddr, InRange, InSlotOf, FreePage, Clear, Reserved, Count;
    forall x: nat | Offers(g, live, shift, x) ensures Clear(g, live, x) {
      OffersListed(g, d, mem, bl, sl, lists, live, shift, x);
      OffersIn(g, live, shift, x);
      assert x !in lists[shift];
      FreeIsClear(g, d, mem, bl, sl, lists, live, x);
    }
  }

  /** Every small request has a chunk size. */
  lemma {:induction false} ClassFrom(g: Geometry, size: nat, from: nat) returns (shift: nat)
    requires GeometryOk(g) && size <= PageSize(g) / 2 && g.minShift <= from < g.ps
    requires g.minShift < from ==> Pow2(from - 1) < size
    ensures IsClass(g, size, shift) && ShiftOk(g, shift)
    decreases g.ps - from
  {
    shift := from;
    if Pow2(from) < size {
      assert PageSize(g) == 2 * Pow2(g.ps - 1);
      if from == g.ps - 1 { assert false; }
      shift := ClassFrom(g, size, from + 1);
    }
  }

  ghost predicate Positive(live: map<nat, nat>) {
    forall a {:trigger a in live} :: a in live ==> 0 < live[a]
  }

  /** A page without allocations is room enough for a small request. */
  lemma {:induction false} ClearIsRoom(g: Geometry, live: map<nat, nat>, size: nat, page: nat)
    requires GeometryOk(g) && size <= PageSize(g) / 2 && Clear(g, live, page) && Positive(live)
    ensures RoomIn(g, live, size)
  {
    var shift := ClassFrom(g, size, g.minShift);
    CountFacts(g, shift);
    ReservedFacts(g, shift);
    var i := Reserved(g, shift);
    var a := ChunkAddr(g, page, shift, i);
    forall c: nat | 0 < c ensures Touches(g, a, c, page) { ChunkTouches(g, shift, page, i, c); }
    hide Touches, ChunkAddr, IsClass, Reserved, Count;
    assert InRange(g, shift, i) by { assert Reserved(g, shift) <= i < Count(g, shift); }
    assert Offers(g, live, shift, page);
  }

  // ---------- it does not matter which chunk a small request is given ----------

  /** A chunk given has bytes of its own page and of no other. */
  lemma {:induction false} GivenPage(g: Geometry, live: map<nat, nat>, shift: nat, p: nat, page: nat)
    requires GeometryOk(g) && ShiftOk(g, shift) && GivenChunk(g, live, shift, p) && g.lo <= page
    ensures Touches(g, p, Pow2(shift), page) <==> page == PageAt(g, p)
    ensures Offers(g, live, shift, PageAt(g, p))
  {
    hide Offers, GivenChunk, Clear, OnlyClear;
    var t, i := GivenAt(g, live, shift, p);
    CountFacts(g, shift);
    ChunkFits(Count(g, shift), Pow2(shift), i);
    InPage(g, t, page, i * Pow2(shift), Pow2(shift));
  }

  lemma {:induction false} InPage(g: Geometry, t: nat, page: nat, off: nat, c: nat)
    requires g.lo <= t && g.lo <= page && 0 < c && off + c <= PageSize(g)
    ensures Touches(g, Addr(g, t, off), c, page) <==> page == t
  {
    assert Addr(g, t, off) == Addr(g, t, 0) + off;
    hide Addr, PageSize;
    NextPage(g, t, 1);
    if t < page { AddrMono(g, t + 1, page); }
    if page < t { NextPage(g, page, 1); AddrMono(g, page + 1, t); }
  }

  lemma {:induction false} GivenAt(g: Geometry, live: map<nat, nat>, shift: nat, p: nat) returns (t: nat, i: nat)
    requires shift < g.ps && GivenChunk(g, live, shift, p)
    ensures g.lo <= t && t == PageAt(g, p) && InRange(g, shift, i) && p == ChunkAddr(g, t, shift, i)
    ensures Offers(g, live, shift, t)
  {
    t := PageAt(g, p);
    i :| InRange(g, shift, i) && p == ChunkAddr(g, t, shift, i);
  }

  lemma {:induction false} GrantedFacts(g: Geometry, live: map<nat, nat>, size: nat, p: nat, c: nat)
    requires Granted(g, live, size, p, c)
    ensures p !in live && size <= c && 0 < c
  {
  }

  /** A small request is given a chunk of its size. */
  lemma {:induction false} GrantedChunk(g: Geometry, live: map<nat, nat>, size: nat, p: nat, c: nat, shift: nat)
    requires GeometryOk(g) && size <= PageSize(g) / 2 && IsClass(g, size, shift) && Granted(g, live, size, p, c)
    ensures c == Pow2(shift) && ShiftOk(g, shift) && GivenChunk(g, live, shift, p) && p !in live
  {
    ClassOk(g, size, shift);
    hide IsClass, GivenChunk, Pow2;
    forall s: nat | IsClass(g, size, s) ensures s == shift { ClassUnique(g, size, s, shift); }
  }

  /** The other request is of the same size: there is another free chunk. */
  lemma {:induction false} MoveSame(g: Geometry, live: map<nat, nat>, shift: nat, p: nat, q: nat, t: nat)
    returns (u: nat)
    requires GeometryOk(g) && ShiftOk(g, shift) && p !in live && q !in live
    requires GivenChunk(g, live, shift, p) && GivenChunk(g, live, shift, q)
    requires Offers(g, live[p := Pow2(shift)], shift, t)
    ensures Offers(g, live[q := Pow2(shift)], shift, u)
  {
    var was, now := live[p := Pow2(shift)], live[q := Pow2(shift)];
    var i: nat :| InRange(g, shift, i) && ChunkAddr(g, t, shift, i) !in was;
    hide Pow2, Touches, InRange, ChunkAddr, GeometryOk;
    if ChunkAddr(g, t, shift, i) != q {
      u := t;
      assert forall a {:trigger a in now} :: a in now ==> a == q || (a in was && was[a] == now[a]);
    } else {
      u := PageAt(g, p);
      var j: nat :| InRange(g, shift, j) && p == ChunkAddr(g, u, shift, j);
      assert p !in now;
    }
  }

  /** The other request is of another size, and its page is not that of `q`. */
  lemma {:induction false} MoveOther(g: Geometry, live: map<nat, nat>, shift: nat, p: nat, q: nat, s2: nat, t: nat)
    requires GeometryOk(g) && ShiftOk(g, shift) && ShiftOk(g, s2) && p !in live
    requires GivenChunk(g, live, shift, q) && t != PageAt(g, q)
    requires Offers(g, live[p := Pow2(shift)], s2, t)
    ensures Offers(g, live[q := Pow2(shift)], s2, t)
  {
    var was, now := live[p := Pow2(shift)], live[q := Pow2(shift)];
    var i: nat :| InRange(g, s2, i) && ChunkAddr(g, t, s2, i) !in was;
    GivenPage(g, live, shift, q, t);
    ChunkPage(g, s2, t, i);
    hide Pow2, Touches, InRange, ChunkAddr, GeometryOk, GivenChunk;
    assert ChunkAddr(g, t, s2, i) !in now;
    assert forall a {:trigger a in now} :: a in now && a != q ==> (a in was && was[a] == now[a]) || a == p;
  }

  /** A page that offers chunks of two sizes has no allocations. */
  lemma {:induction false} OffersTwo(g: Geometry, live: map<nat, nat>, s1: nat, s2: nat, t: nat)
    requires Offers(g, live, s1, t) && Offers(g, live, s2, t) && s1 != s2
    ensures Clear(g, live, t)
  {
    if Pow2(s1) == Pow2(s2) { SameShift(s1, s2); }
    hide Pow2, Touches;
  }

  lemma {:induction false} OffersFewer(g: Geometry, live: map<nat, nat>, p: nat, c: nat, s2: nat, t: nat)
    requires p !in live && Offers(g, live[p := c], s2, t)
    ensures Offers(g, live, s2, t)
  {
    hide Pow2, Touches, InRange;
    assert forall a {:trigger a in live} :: a in live ==> a in live[p := c] && live[p := c][a] == live[a];
  }

  /** A small request that finds a chunk when `p` is taken finds one when `q` is. */
  lemma {:induction false} MoveSmall(g: Geometry, live: map<nat, nat>, shift: nat, p: nat, q: nat, size2: nat)
    requires GeometryOk(g) && ShiftOk(g, shift) && Positive(live) && size2 <= PageSize(g) / 2 && p !in live &&
      q !in live
    requires GivenChunk(g, live, shift, p) && GivenChunk(g, live, shift, q)
    requires RoomIn(g, live[p := Pow2(shift)], size2)
    ensures RoomIn(g, live[q := Pow2(shift)], size2)
  {
    var was, now := live[p := Pow2(shift)], live[q := Pow2(shift)];
    var s2: nat, t: nat :| IsClass(g, size2, s2) && Offers(g, was, s2, t);
    ClassOk(g, size2, s2);
    if s2 == shift {
      var u := MoveSame(g, live, shift, p, q, t);
      assert Offers(g, now, s2, u);
    } else if t != PageAt(g, q) {
      MoveOther(g, live, shift, p, q, s2, t);
    } else {
      hide RoomIn;
      var u := PageAt(g, p);
      GivenPage(g, live, shift, p, t);
      NotOwn(g, was, shift, p, s2, t);
      OffersFewer(g, live, p, Pow2(shift), s2, t);
      GivenPage(g, live, shift, q, u);
      OffersTwo(g, live, shift, s2, t);
      StillClear(g, live, q, Pow2(shift), u);
      ClearIsRoom(g, now, size2, u);
    }
  }

  /** The page of a chunk just given offers nothing of another size. */
  lemma {:induction false} NotOwn(g: Geometry, was: map<nat, nat>, shift: nat, p: nat, s2: nat, t: nat)
    requires p in was && was[p] == Pow2(shift) && Offers(g, was, s2, t) && s2 != shift
    ensures !Touches(g, p, Pow2(shift), t)
  {
    if Pow2(shift) == Pow2(s2) { SameShift(shift, s2); }
    hide Pow2, Touches;
  }

  lemma {:induction false} StillClear(g: Geometry, live: map<nat, nat>, q: nat, c: nat, u: nat)
    requires Clear(g, live, u) && !Touches(g, q, c, u)
    ensures Clear(g, live[q := c], u)
  {
    hide Touches;
  }

  /** A large request that finds pages when `p` is taken finds them when `q` is, if both are in
      pages with other allocations. */
  lemma {:induction false} MoveLarge(g: Geometry, live: map<nat, nat>, shift: nat, p: nat, q: nat, size2: nat)
    requires GeometryOk(g) && ShiftOk(g, shift) && size2 > PageSize(g) / 2 && p !in live
    requires GivenChunk(g, live, shift, p) && GivenChunk(g, live, shift, q) && !OnlyClear(g, live, shift)
    requires RoomIn(g, live[p := Pow2(shift)], size2)
    ensures RoomIn(g, live[q := Pow2(shift)], size2)
  {
    var was, now, k := live[p := Pow2(shift)], live[q := Pow2(shift)], PagesFor(g, size2);
    var i: nat :| ClearFrom(g, was, i, k);
    hide Pow2, Touches, PagesFor, OnlyClear, Offers;
    forall j: nat | i <= j < i + k ensures Clear(g, now, j) {
      assert Clear(g, was, j);
      assert Clear(g, live, j) by {
        assert forall a {:trigger a in live} :: a in live ==> a in was && was[a] == live[a];
      }
      GivenPage(g, live, shift, q, j);
    }
    assert ClearFrom(g, now, i, k);
  }

  /** The second of two requests succeeds or not whichever chunk the first is given: when both
      are small, or when the first is and some page with other allocations offers a chunk for it. */
  lemma {:induction false} SamePlace(g: Geometry, live: map<nat, nat>, size: nat, p: nat, c: nat, q: nat, c2: nat,
                                     size2: nat)
    requires GeometryOk(g) && Positive(live) && size <= PageSize(g) / 2
    requires Granted(g, live, size, p, c) && Granted(g, live, size, q, c2)
    requires size2 <= PageSize(g) / 2 || exists shift: nat :: IsClass(g, size, shift) && !OnlyClear(g, live, shift)
    ensures c == c2 && (RoomIn(g, live[p := c], size2) <==> RoomIn(g, live[q := c2], size2))
  {
    var shift: nat :| IsClass(g, size, shift) && GivenChunk(g, live, shift, p);
    GrantedChunk(g, live, size, p, c, shift);
    GrantedChunk(g, live, size, q, c2, shift);
    forall s: nat | IsClass(g, size, s) ensures s == shift { ClassUnique(g, size, s, shift); }
    hide Granted, RoomIn, GivenChunk, OnlyClear, Pow2, IsClass;
    if size2 <= PageSize(g) / 2 {
      if RoomIn(g, live[p := c], size2) { MoveSmall(g, live, shift, p, q, size2); }
      if RoomIn(g, live[q := c], size2) { MoveSmall(g, live, shift, q, p, size2); }
    } else {
      if RoomIn(g, live[p := c], size2) { MoveLarge(g, live, shift, p, q, size2); }
      if RoomIn(g, live[q := c], size2) { MoveLarge(g, live, shift, q, p, size2); }
    }
  }

  /** A page without allocations, and another page that offers a chunk for the first of two small
      requests, are room for both. */
  lemma {:induction false} RoomForTwo(g: Geometry, live: map<nat, nat>, size: nat, p: nat, c: nat, size2: nat, i: nat,
                                      shift: nat, t: nat)
    requires GeometryOk(g) && size <= PageSize(g) / 2 && size2 <= PageSize(g) / 2 && Positive(live)
    requires i != t && Clear(g, live, i) && IsClass(g, size, shift) && Offers(g, live, shift, t)
    requires Granted(g, live, size, p, c)
    ensures RoomIn(g, live[p := c], size2)
  {
    hide RoomIn, Pow2, IsClass, Touches, Offers, PageSize, GeometryOk, Granted;
    GrantedChunk(g, live, size, p, c, shift);
    OffersIn(g, live, shift, t);
    var page := if PageAt(g, p) == i then t else i;
    GivenPage(g, live, shift, p, page);
    assert Clear(g, live, page);
    StillClear(g, live, p, c, page);
    ClearIsRoom(g, live[p := c], size2, page);
  }
}
