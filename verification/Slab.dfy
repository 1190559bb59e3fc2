/** The slab allocator (src/mps_slab.c, src/mps_slab.h). */
module Slab {
  import opened Seqs
  import opened SlabList
  import opened SlabBlocks
  import opened SlabPages
  import opened Powers
  import opened SlabLayout
  import opened SlabChunks
  import opened SlabLive
  import opened SlabRoom
  import opened SlabSpans

  /** The first block of the free list with room for `pages` pages. */
  ghost predicate FirstFit(bl: Blocks, free: seq<nat>, x: nat, pages: nat) {
    exists k :: 0 <= k < |free| && free[k] == x && x in bl && pages <= bl[x].len &&
      forall j :: 0 <= j < k ==> free[j] in bl && bl[free[j]].len < pages
  }

  class Pool {
    /** The descriptors: list heads, then one for each page from `lo` to `hi`. */
    const desc: array<Page>
    /** The descriptor behind those, if the pool was laid out with one page more than fit. No
        method writes it. */
    const tail: seq<Page>
    const geo: Geometry
    const lo: nat := geo.lo
    const hi: nat := geo.hi
    const end: nat
    const exactShift: nat := if geo.ps < 6 then 0 else geo.ps - 6
    /** The counters, by slot. */
    const stats: array<Stat>
    /** The words of the data pages. */
    var mem: Memory
    var pfree: nat
    ghost var blocks: Blocks
    ghost var free: seq<nat>
    ghost var slices: Slices
    ghost var lists: Lists
    /** The allocations: addresses, with the bytes that belong to each. */
    ghost var live: map<nat, nat>

    /** mps_slab_init, for a pool in which at least one page fits. The descriptors, `count` of
        them, start at offset `p`. */
    constructor (ps: nat, minShift: nat, poolSize: nat)
      requires 6 <= ps <= 16 && minShift < ps && poolSize < START && Fits(ps, minShift, poolSize)
      ensures Valid() && fresh(desc) && fresh(stats)
      ensures geo.ps == ps && geo.minShift == minShift && end == poolSize && lo < hi
      ensures geo.start + (hi - lo) * PageSize(geo) <= end && InitPages(ps, minShift, poolSize) <= hi - lo + 1
      ensures desc.Length == hi && hi + |tail| == lo + InitPages(ps, minShift, poolSize)
      ensures
        HEADER + (ps - minShift) * (PAGE_BYTES + STAT_BYTES) + InitPages(ps, minShift, poolSize) * PAGE_BYTES <=
        geo.start
      ensures live == map[] && slices == map[] && blocks == map[lo := Block(hi - lo, Use.Free)] && pfree == hi - lo
    {
      var g, pages := Layout(ps, minShift, poolSize);
      geo := g;
      end := poolSize;
      tail := if g.hi < g.lo + pages then [CLEARED_PAGE] else [];
      desc := new Page[g.hi](i => NewPage(g, i));
      stats := new Stat[ps - minShift](_ => Stat(0, 0, 0, 0));
      mem := NewMemory(g);
      pfree := g.hi - g.lo;
      blocks := map[g.lo := Block(g.hi - g.lo, Use.Free)];
      free := [g.lo];
      slices := map[];
      lists := NoLists(minShift, ps);
      live := map[];
      new;
      hide PoolOk, PagesOk, MemOk, NewPage, NewMemory, UnusedPages, GeometryOk, Fits, InitPages, Pow2;
      NewPool(geo, desc[..], mem, blocks, free, lists, stats[..]);
    }

    ghost predicate Valid()
      reads this, desc, stats
    {
      PoolOk(geo, desc[..], mem, blocks, free, slices, lists, stats[..], live) && PagesValid() &&
      geo.start + (hi - lo) * PageSize(geo) <= end && TailOk()
    }

    /** The descriptor behind the pages is cleared, and the last address of the pool that has a
        descriptor has that one. */
    ghost predicate TailOk() {
      tail == [] || (tail == [CLEARED_PAGE] && lo <= hi && end < geo.start + (hi + 1 - lo) * PageSize(geo))
    }

    ghost predicate PagesValid()
      reads this`pfree, this`blocks, this`free, desc
    {
      PagesOk(desc[..], blocks, free, lo, hi) && pfree == |UnusedPages(blocks, lo, hi)|
    }

    /** The first `pages` pages of the free block at `page` are split off: the rest takes
        its place in the list, and the tag on the last page is redirected. */
    method Carve(page: nat, pages: nat, ghost k: nat)
      requires PagesValid() && k < |free| && free[k] == page && IsFree(blocks, page) && 0 < pages < blocks[page].len
      modifies desc
      ensures Carved(old(desc[..]), desc[..], free, k, blocks[page].len, pages)
    {
      FreeReads(desc[..], blocks, free, lo, hi, k);
      hide PagesOk, UnusedPages;
      var slab := desc[page].slab.n;
      var y := page + pages;
      desc[page + slab - 1] := desc[page + slab - 1].(prev := Tagged(y, PAGE));
      desc[y] := Page(Num(slab - pages), desc[page].next, desc[page].prev);
      var p := Unmasked(desc[page].prev);
      desc[p] := desc[p].(next := y);
      var next := desc[page].next;
      desc[next] := desc[next].(prev := Tagged(y, PAGE));
    }

    /** mps_slab_page(pool, page->prev): the word is used as an offset as it is, which is
        right only while its type bits are zero. */
    function Unmasked(prev: Tagged): nat
      requires prev.kind.PAGE?
    {
      prev.to
    }

    /** The member at position `k` of a list leaves it. */
    method Unlink(page: nat, ghost h: nat, ghost items: seq<nat>, ghost k: nat, ghost kind: Kind)
      requires Listed(desc[..], h, items, kind) && k < |items| && items[k] == page
      modifies desc
      ensures Nth(h, items, k - 1) < desc.Length && Nth(h, items, k + 1) < desc.Length
      ensures Unlinked(old(desc[..]), desc[..], Nth(h, items, k - 1), Nth(h, items, k + 1), kind)
    {
      ListedNear(desc[..], h, items, kind, k);
      var prev := desc[page].prev.to;
      desc[prev] := desc[prev].(next := desc[page].next);
      var next := desc[page].next;
      desc[next] := desc[next].(prev := desc[page].prev);
    }

    /** `pages` pages are marked as one allocation. */
    method Mark(page: nat, pages: nat)
      requires 0 < pages && page + pages <= desc.Length
      modifies desc
      ensures Allotted(old(desc[..]), desc[..], page, pages)
    {
      desc[page] := LargePage(pages);
      var p := page + 1;
      while p < page + pages
        invariant page < p <= page + pages
        invariant desc[page] == LargePage(pages)
        invariant forall z {:trigger desc[z]} :: page < z < p ==> desc[z] == BUSY_PAGE
        invariant forall z {:trigger desc[z]} :: 0 <= z < desc.Length && !(page <= z < p) ==> desc[z] == old(desc[z])
      {
        desc[p] := BUSY_PAGE;
        p := p + 1;
      }
    }

    /** mps_slab_alloc_pages: first fit. */
    method AllocPages(pages: nat) returns (page: nat)
      requires PagesValid() && 0 < pages
      modifies this`pfree, this`blocks, this`free, desc
      ensures PagesValid() && KeepsUsed(old(desc[..]), desc[..], old(blocks))
      ensures page == 0 <==> !exists i: nat :: FreeFrom(old(blocks), lo, hi, i, pages)
      ensures page == 0 ==>
        blocks == old(blocks) && free == old(free) && pfree == old(pfree) && desc[..] == old(desc[..])
      ensures page != 0 ==> FirstFit(old(blocks), old(free), page, pages) && lo <= page
      ensures page != 0 ==> IsFree(old(blocks), page) && pages <= old(blocks)[page].len
      ensures page != 0 ==> blocks == Taken(old(blocks), page, pages, Large)
    {
      ghost var d := desc[..];
      FreeRunIff(blocks, lo, hi, pages);
      hide PagesOk, KeepsUsed, FreeFrom;
      page := desc[FREE_HEAD].next;
      ghost var k := 0;
      while page != FREE_HEAD
        invariant k <= |free| && page == Nth(FREE_HEAD, free, k)
        invariant forall j :: 0 <= j < k ==> free[j] in blocks && blocks[free[j]].len < pages
        invariant desc[..] == d
        modifies {}
        decreases |free| - k
      {
        FreeReads(d, blocks, free, lo, hi, k);
        if desc[page].slab.n >= pages {
          break;
        }
        page := desc[page].next;
        k := k + 1;
      }
      if page == FREE_HEAD {
        FreeHeadUnlisted(d, blocks, free, lo, hi, k);
        NoneFits(d, blocks, free, lo, hi, pages);
        page := 0;
      } else {
        FreeReads(desc[..], blocks, free, lo, hi, k);
        TakePages(page, pages, k);
      }
    }

    /** The taking part of mps_slab_alloc_pages, at the block where the search stops. */
    method TakePages(page: nat, pages: nat, ghost k: nat)
      requires PagesValid() && k < |free| && free[k] == page && IsFree(blocks, page) && 0 < pages <= blocks[page].len
      modifies this`pfree, this`blocks, this`free, desc
      ensures PagesValid() && blocks == Taken(old(blocks), page, pages, Large)
      ensures KeepsUsed(old(desc[..]), desc[..], old(blocks))
    {
      FreeReads(desc[..], blocks, free, lo, hi, k);
      TakenCount(blocks, lo, hi, page, pages, Large);
      hide PagesOk, UnusedPages, Carved, Unlinked, KeepsUsed;
      ghost var d := desc[..];
      if desc[page].slab.n > pages {
        Carve(page, pages, k);
        ghost var e := desc[..];
        Mark(page, pages);
        TakenPages(d, e, desc[..], blocks, free, lo, hi, k, pages);
        TakenKeeps(d, e, desc[..], blocks, free, lo, hi, k, pages);
        free := free[k := page + pages];
      } else {
        Unlink(page, FREE_HEAD, free, k, PAGE);
        ghost var e := desc[..];
        Mark(page, pages);
        TakenWhole(d, e, desc[..], blocks, free, lo, hi, k);
        TakenKeeps(d, e, desc[..], blocks, free, lo, hi, k, pages);
        free := Dropped(free, k);
      }
      blocks := Taken(blocks, page, pages, Large);
      pfree := pfree - pages;
    }

    /** The pages of a block are cleared, and the first one gets their number. */
    method Wipe(page: nat, pages: nat)
      requires 0 < pages && page + pages <= desc.Length
      modifies desc
      ensures desc[page] == old(desc[page]).(slab := Num(pages))
      ensures forall i {:trigger desc[i]} :: page < i < page + pages ==> desc[i] == CLEARED_PAGE
      ensures forall z {:trigger desc[z]} ::
        0 <= z < desc.Length && !(page <= z < page + pages) ==> desc[z] == old(desc[z])
    {
      desc[page] := desc[page].(slab := Num(pages));
      var i := page + 1;
      while i < page + pages
        invariant page < i <= page + pages
        invariant desc[page] == old(desc[page]).(slab := Num(pages))
        invariant forall z {:trigger desc[z]} :: page < z < i ==> desc[z] == CLEARED_PAGE
        invariant forall z {:trigger desc[z]} :: 0 <= z < desc.Length && !(page <= z < i) ==> desc[z] == old(desc[z])
      {
        desc[i] := CLEARED_PAGE;
        i := i + 1;
      }
    }

    /** The loose block `x`, one of the neighbours `s` and `t`, is made one with the other. */
    method Merge(s: nat, t: nat, join: nat, ghost x: nat, ghost k: nat)
      requires Loose(desc[..], blocks, free, lo, hi, x) && IsFree(blocks, s) && IsFree(blocks, t) && t == End(blocks, s)
      requires s < t < desc.Length && (x == s || x == t) && join == s + t - x && k < |free| && free[k] == join
      requires desc[s].slab == Num(blocks[s].len) && desc[t].slab == Num(blocks[t].len)
      modifies desc, this`blocks, this`free
      ensures blocks == Joined(old(blocks), s) && Loose(desc[..], blocks, free, lo, hi, s)
      ensures KeepsUsed(old(desc[..]), desc[..], old(blocks))
    {
      ghost var d := desc[..];
      LooseNeighbour(d, blocks, free, lo, hi, x, k - 1);
      LooseNeighbour(d, blocks, free, lo, hi, x, k + 1);
      ListedNear(d, FREE_HEAD, free, PAGE, k);
      assert Placed(blocks, lo, hi, s);
      hide Loose, KeepsUsed;
      desc[s] := desc[s].(slab := Num(desc[s].slab.n + desc[t].slab.n));
      ListedFrame(d, desc[..], FREE_HEAD, free, PAGE);
      Unlink(join, FREE_HEAD, free, k, PAGE);
      desc[t] := CLEARED_PAGE;
      assert Merged(d, desc[..], free, k, s, t, blocks[s].len + blocks[t].len);
      MergedLoose(d, desc[..], blocks, free, lo, hi, s, t, x, k);
      MergedKeeps(d, desc[..], blocks, free, lo, hi, s, t, x, k);
      free := Dropped(free, k);
      blocks := Joined(blocks, s);
    }

    /** The first half of mps_slab_free_pages: the block after `page` joins it if free. */
    method JoinRight(page: nat, pages: nat) returns (more: nat)
      requires Loose(desc[..], blocks, free, lo, hi, page) && pages + 1 == blocks[page].len
      modifies this`blocks, this`free, desc
      ensures Loose(desc[..], blocks, free, lo, hi, page) && more + 1 == blocks[page].len
      ensures blocks == if IsFree(old(blocks), End(old(blocks), page)) then Joined(old(blocks), page) else old(blocks)
      ensures KeepsUsed(old(desc[..]), desc[..], old(blocks))
    {
      more := pages;
      var join := page + desc[page].slab.n;
      assert Placed(blocks, lo, hi, page);
      assert join in blocks ==> Placed(blocks, lo, hi, join);
      if join < hi {
        RightTest(desc[..], blocks, free, lo, hi, page);
        if desc[join].prev.kind.PAGE? {
          if desc[join].next != 0 {
            more := more + desc[join].slab.n;
            ghost var k :| 0 <= k < |free| && free[k] == join;
            Merge(page, join, join, page, k);
          }
        }
      }
    }

    /** The second half: the block that ends before `page` takes it in if free. */
    method JoinLeft(page: nat, pages: nat) returns (head: nat, more: nat, ghost p: Option<nat>)
      requires Loose(desc[..], blocks, free, lo, hi, page) && pages + 1 == blocks[page].len
      modifies this`blocks, this`free, desc
      ensures LeftOf(old(blocks), page, p)
      ensures
        if p.Some? then head == p.value && blocks == Joined(old(blocks), head)
        else head == page && blocks == old(blocks)
      ensures Loose(desc[..], blocks, free, lo, hi, head) && more + 1 == blocks[head].len
      ensures KeepsUsed(old(desc[..]), desc[..], old(blocks))
    {
      head, more, p := page, pages, None;
      assert Placed(blocks, lo, hi, page);
      if page > lo {
        ghost var q := LeftTest(desc[..], blocks, free, lo, hi, page);
        var join := page - 1;
        if desc[join].prev.kind.PAGE? {
          if desc[join].slab == Num(0) {
            join := desc[join].prev.to;
          }
          if desc[join].next != 0 {
            more := more + desc[join].slab.n;
            ghost var k :| 0 <= k < |free| && free[k] == join;
            p := Some(join);
            Merge(join, page, join, page, k);
            head := join;
          }
        }
      } else {
        NoneLeft(blocks, lo, hi);
      }
    }

    /** The end of mps_slab_free_pages: the tag, and the first place in the free list. */
    method Push(page: nat, pages: nat)
      requires Loose(desc[..], blocks, free, lo, hi, page) && Coalesced(blocks) && pages + 1 == blocks[page].len
      modifies this`free, desc
      ensures PagesOk(desc[..], blocks, free, lo, hi)
      ensures KeepsUsed(old(desc[..]), desc[..], blocks)
    {
      ghost var d := desc[..];
      LooseNeighbour(d, blocks, free, lo, hi, page, 0);
      assert Placed(blocks, lo, hi, page);
      if pages != 0 {
        desc[page + pages] := desc[page + pages].(prev := Tagged(page, PAGE));
      }
      desc[page] := desc[page].(next := desc[FREE_HEAD].next, prev := Tagged(FREE_HEAD, PAGE));
      var next := desc[page].next;
      desc[next] := desc[next].(prev := Tagged(page, PAGE));
      desc[FREE_HEAD] := desc[FREE_HEAD].(next := page);
      PushedPages(d, desc[..], blocks, free, lo, hi, page);
      free := [page] + free;
    }

    /** The position `k` of a slot list of pages of chunks holds `page`. */
    ghost predicate InSlot(page: nat, h: nat, items: seq<nat>, k: nat, kind: Kind)
      reads this`blocks, desc
    {
      FREE_HEAD < h < lo && Listed(desc[..], h, items, kind) && k < |items| && items[k] == page &&
      forall z: nat {:trigger z in items} :: z in items ==> z in blocks && blocks[z].use.Chunks?
    }

    /** The start of mps_slab_free_pages: the block leaves its slot list, if it is in one,
        and its pages are cleared. */
    method Loosen(page: nat, pages: nat, ghost h: nat, ghost items: seq<nat>, ghost k: nat, ghost kind: Kind)
      returns (ghost w: seq<Page>)
      requires PagesOk(desc[..], blocks, free, lo, hi) && page in blocks && !IsFree(blocks, page) &&
        pages == blocks[page].len
      requires page < desc.Length && (desc[page].next != 0 ==> InSlot(page, h, items, k, kind))
      modifies this`blocks, desc
      ensures blocks == FreedAlone(old(blocks), page) && Loose(desc[..], blocks, free, lo, hi, page)
      ensures SlotLeft(old(desc[..]), w, page, h, items, k, kind)
      ensures KeepsUsed(w, desc[..], blocks)
    {
      ghost var d := desc[..];
      assert Placed(blocks, lo, hi, page) && BlockOk(d, blocks, hi, page);
      Wipe(page, pages);
      if desc[page].next != 0 {
        SlotNear(d, blocks, lo, hi, h, items, k, kind);
        hide PagesOk;
        ListedFrame(d, desc[..], h, items, kind);
        Unlink(page, h, items, k, kind);
        w := desc[..][page := desc[page].(slab := d[page].slab)];
        UnlinkedWiped(d, w, desc[..], blocks, lo, hi, h, items, k, kind);
      } else {
        w := d;
      }
      WipedLoose(d, desc[..], blocks, free, lo, hi, page);
      blocks := FreedAlone(blocks, page);
    }

    /** Both joins. */
    method Join(page: nat, pages: nat) returns (head: nat, more: nat, ghost p: Option<nat>)
      requires Loose(desc[..], blocks, free, lo, hi, page) && pages + 1 == blocks[page].len
      modifies this`blocks, this`free, desc
      ensures Grown(old(blocks), blocks, page, head, p)
      ensures Loose(desc[..], blocks, free, lo, hi, head) && more + 1 == blocks[head].len
      ensures KeepsUsed(old(desc[..]), desc[..], old(blocks))
    {
      ghost var d0, b0 := desc[..], blocks;
      assert Covered(b0, lo, hi) && IsFree(b0, page);
      more := JoinRight(page, pages);
      ghost var d1, b1 := desc[..], blocks;
      assert IsFree(b1, page);
      hide Loose, KeepsUsed, Covered;
      head, more, p := JoinLeft(page, more);
      KeptAll(d0, d1, desc[..], b0, b1, blocks, lo, hi, page, p);
    }

    /** mps_slab_free_pages: the block joins the free blocks on both sides and comes first
        in the free list. `w` is the descriptors when only the slot list is changed. */
    method FreePages(page: nat, pages: nat, ghost h: nat, ghost items: seq<nat>, ghost k: nat, ghost kind: Kind)
      returns (ghost w: seq<Page>, ghost p: Option<nat>)
      requires PagesValid() && page in blocks && !IsFree(blocks, page) && pages == blocks[page].len
      requires page < desc.Length && (desc[page].next != 0 ==> InSlot(page, h, items, k, kind))
      modifies this`pfree, this`blocks, this`free, desc
      ensures PagesValid() && 0 < old(blocks)[page].len
      ensures LeftOf(old(blocks), page, p) && (p.Some? ==> 0 < old(blocks)[p.value].len) &&
        blocks == Freed(old(blocks), page, p)
      ensures SlotLeft(old(desc[..]), w, page, h, items, k, kind)
      ensures KeepsUsed(w, desc[..], FreedAlone(old(blocks), page))
    {
      ghost var bl := blocks;
      assert Placed(bl, lo, hi, page) && Tiled(bl, lo, hi);
      hide UnusedPages, KeepsUsed, SlotLeft, PagesOk, Loose, Grown;
      pfree := pfree + pages;
      w := Loosen(page, pages, h, items, k, kind);
      ghost var b0, d0 := blocks, desc[..];
      var head, rest;
      head, rest, p := Join(page, pages - 1);
      ghost var b2, d2 := blocks, desc[..];
      GrownFreed(bl, b2, lo, hi, page, head, p);
      hide Tiled, Freed;
      Push(head, rest);
      KeptEnd(w, d0, d2, desc[..], b0, b2, lo, hi, page, head, p);
    }

    // ---------- chunks ----------

    /** The lowest bit from `lowest` on that is zero. */
    method FindBit(word: set<nat>, lowest: nat, limit: nat) returns (m: nat)
      requires exists j: nat :: lowest <= j < limit && j !in word
      ensures lowest <= m < limit && m !in word && forall j: nat :: lowest <= j < m ==> j in word
    {
      m := lowest;
      while m < limit
        invariant lowest <= m <= limit && forall j: nat :: lowest <= j < m ==> j in word
      {
        if m !in word {
          return;
        }
        m := m + 1;
      }
      // "page is busy"
      assert false;
    }

    /** A page that became full leaves its list. */
    method Detach(page: nat, kind: Kind, ghost h: nat, ghost items: seq<nat>)
      requires Listed(desc[..], h, items, kind) && items != [] && items[0] == page
      modifies desc
      ensures Detached(old(desc[..]), desc[..], h, items, 0, kind)
    {
      ListedNear(desc[..], h, items, kind, 0);
      ghost var d := desc[..];
      Unlink(page, h, items, 0, kind);
      ghost var w := desc[..];
      desc[page] := desc[page].(next := 0, prev := Tagged(0, kind));
      assert desc[..][page := d[page]] == w;
    }

    ghost predicate Front(page: nat, shift: nat)
      reads this, desc
    {
      GeometryOk(geo) && ChunksOk(geo, desc[..], mem, blocks, slices, lists) && ShiftOk(geo, shift) && shift in lists &&
      lists[shift] != [] && lists[shift][0] == page
    }

    /** A chunk of 1/64 page is taken from the page in front. */
    method TakeExact(page: nat, shift: nat) returns (i: nat, ghost d1: seq<Page>)
      requires Front(page, shift) && KindOf(geo, shift).EXACT?
      modifies desc
      ensures Took(geo, old(desc[..]), d1, desc[..], mem, mem, slices, lists, page, shift, i)
    {
      ghost var d := desc[..];
      ghost var f := FrontNotFull(geo, d, mem, blocks, slices, lists, shift);
      CountFacts(geo, shift);
      hide ChunksOk, TookBit, LastTaken, Detached, SliceOk;
      i := FindBit(desc[page].slab.b, 0, 64);
      desc[page] := desc[page].(slab := Bits(desc[page].slab.b + {i}));
      d1 := desc[..];
      WordTook(geo, d, d1, mem, blocks, slices, lists, page, shift, i);
      if desc[page].slab.b == Ones(0, 64) {
        Detach(page, EXACT, Head(geo, shift), lists[shift]);
      }
    }

    /** A chunk of a larger size is taken from the page in front. */
    method TakeBig(page: nat, shift: nat) returns (i: nat, ghost d1: seq<Page>)
      requires Front(page, shift) && KindOf(geo, shift).BIG?
      modifies desc
      ensures Took(geo, old(desc[..]), d1, desc[..], mem, mem, slices, lists, page, shift, i)
    {
      ghost var d := desc[..];
      ghost var f := FrontNotFull(geo, d, mem, blocks, slices, lists, shift);
      CountFacts(geo, shift);
      hide ChunksOk, TookBit, LastTaken, Detached, SliceOk;
      var count := PageSize(geo) / Pow2(shift);
      var m := FindBit(desc[page].slab.b, 32, 32 + count);
      i := m - 32;
      MapFull(geo, d, mem, page, shift, i, desc[page].slab.b + {m});
      desc[page] := desc[page].(slab := Bits(desc[page].slab.b + {m}));
      d1 := desc[..];
      WordTook(geo, d, d1, mem, blocks, slices, lists, page, shift, i);
      if MapBits(desc[page].slab.b) == Ones(32, count) {
        Detach(page, BIG, Head(geo, shift), lists[shift]);
      }
    }

    /** The first word of a bitmap that is not all ones. */
    method FindWord(page: nat, words: nat) returns (n: nat)
      requires !BusyBelow(mem, page, words) && forall w: nat {:trigger WordOk(mem, page, w)} ::
        w < words ==> WordOk(mem, page, w)
      ensures n < words && WordOk(mem, page, n) && BusyBelow(mem, page, n) && exists j: nat ::
        j < 64 && j !in mem[(page, n)]
    {
      n := 0;
      while n < words
        invariant n <= words && BusyBelow(mem, page, n)
      {
        assert WordOk(mem, page, n);
        if mem[(page, n)] != Ones(0, 64) {
          SomeZero(mem[(page, n)]);
          return;
        }
        assert BusyWord(mem, page, n);
        n := n + 1;
      }
      // "page is busy"
      assert false;
    }

    /** Are the words from `n` on all ones? */
    method RestBusy(page: nat, n: nat, words: nat) returns (busy: bool)
      requires forall w: nat {:trigger WordOk(mem, page, w)} :: n <= w < words ==> WordOk(mem, page, w)
      ensures busy <==> forall w: nat {:trigger BusyWord(mem, page, w)} :: n <= w < words ==> BusyWord(mem, page, w)
    {
      var w := n;
      while w < words
        invariant n <= w && (w <= words || w == n) && forall v: nat {:trigger BusyWord(mem, page, v)} ::
          n <= v < w ==> BusyWord(mem, page, v)
      {
        assert WordOk(mem, page, w);
        assert BusyWord(mem, page, w) <==> mem[(page, w)] == Ones(0, 64);
        if mem[(page, w)] != Ones(0, 64) {
          return false;
        }
        w := w + 1;
      }
      return true;
    }

    /** The lowest zero bit of a bitmap, by its word and its place in it. */
    method Scan(page: nat, words: nat) returns (n: nat, m: nat)
      requires !BusyBelow(mem, page, words) && forall w: nat {:trigger WordOk(mem, page, w)} ::
        w < words ==> WordOk(mem, page, w)
      ensures n < words && m < 64 && WordOk(mem, page, n) && BusyBelow(mem, page, n)
      ensures m !in mem[(page, n)] && forall j: nat :: j < m ==> j in mem[(page, n)]
    {
      n := FindWord(page, words);
      hide BusyBelow;
      m := FindBit(mem[(page, n)], 0, 64);
    }

    /** The bit of the lowest free chunk is set in the bitmap. */
    method MarkSmall(page: nat, shift: nat, words: nat) returns (n: nat, m: nat)
      requires Front(page, shift) && KindOf(geo, shift).SMALL? && words == Words(geo, shift)
      modifies this`mem
      ensures n < words && m < 64 &&
        TookBit(geo, desc[..], desc[..], old(mem), mem, slices, lists, page, shift, n * 64 + m)
      ensures LastTaken(geo, slices, page, n * 64 + m) <==>
        forall w: nat {:trigger BusyWord(mem, page, w)} :: n <= w < words ==> BusyWord(mem, page, w)
      ensures forall w: nat {:trigger WordOk(mem, page, w)} :: w < words ==> WordOk(mem, page, w)
    {
      hide ChunksOk, TookBit, LastTaken, SliceOk, FormOk, SlotOk, Words, Pow2, InRange, Marked, Ones, BusyBelow;
      SmallNotFull(geo, desc[..], mem, blocks, slices, lists, shift);
      ghost var f := FrontNotFull(geo, desc[..], mem, blocks, slices, lists, shift);
      n, m := Scan(page, words);
      ghost var was := mem;
      mem := mem[(page, n) := mem[(page, n)] + {m}];
      BitmapTook(geo, desc[..], was, mem, blocks, slices, lists, page, shift, n, m);
      forall w: nat | w < words ensures WordOk(mem, page, w) { assert WordOk(was, page, w); }
    }

    /** The page leaves its list if the words of its bitmap from `n` on are all ones. */
    method SettleSmall(page: nat, n: nat, words: nat, ghost h: nat, ghost items: seq<nat>) returns (busy: bool)
      requires n < words && forall w: nat {:trigger WordOk(mem, page, w)} :: n <= w < words ==> WordOk(mem, page, w)
      requires Listed(desc[..], h, items, SMALL) && items != [] && items[0] == page
      modifies desc
      ensures busy <==> forall w: nat {:trigger BusyWord(mem, page, w)} :: n <= w < words ==> BusyWord(mem, page, w)
      ensures if busy then Detached(old(desc[..]), desc[..], h, items, 0, SMALL) else desc[..] == old(desc[..])
    {
      hide Listed, Detached;
      assert WordOk(mem, page, n) && (BusyWord(mem, page, n) <==> mem[(page, n)] == Ones(0, 64));
      busy := false;
      if mem[(page, n)] == Ones(0, 64) {
        busy := RestBusy(page, n + 1, words);
        if busy {
          Detach(page, SMALL, h, items);
        }
      }
    }

    /** A chunk of a smaller size is taken from the page in front, by its bitmap. */
    method TakeSmall(page: nat, shift: nat) returns (i: nat)
      requires Front(page, shift) && KindOf(geo, shift).SMALL?
      modifies desc, this`mem
      ensures Took(geo, old(desc[..]), old(desc[..]), desc[..], old(mem), mem, slices, lists, page, shift, i)
    {
      ghost var f := FrontNotFull(geo, desc[..], mem, blocks, slices, lists, shift);
      SmallNotFull(geo, desc[..], mem, blocks, slices, lists, shift);
      hide ChunksOk, TookBit, LastTaken, Detached, SliceOk;
      var words := PageSize(geo) / Pow2(shift) / 64;
      var n, m := MarkSmall(page, shift, words);
      i := n * 64 + m;
      var busy := SettleSmall(page, n, words, Head(geo, shift), lists[shift]);
    }

    /** The lowest free chunk of the page in front is taken. */
    method TakeChunk(page: nat, shift: nat) returns (i: nat, ghost d1: seq<Page>)
      requires Front(page, shift)
      modifies desc, this`mem
      ensures Took(geo, old(desc[..]), d1, desc[..], old(mem), mem, slices, lists, page, shift, i)
    {
      hide ChunksOk, Took;
      d1 := desc[..];
      if shift < exactShift {
        i := TakeSmall(page, shift);
      } else if shift == exactShift {
        i, d1 := TakeExact(page, shift);
      } else {
        i, d1 := TakeBig(page, shift);
      }
    }

    lemma {:induction false} FrontFacts(page: nat, shift: nat)
      requires Valid() && ShiftOk(geo, shift) && shift in lists && lists[shift] != [] && lists[shift][0] == page
      ensures Front(page, shift) && lo <= page && stats.Length == geo.ps - geo.minShift
    {
      var f := FrontNotFull(geo, desc[..], mem, blocks, slices, lists, shift);
    }

    /** mps_slab_alloc_locked when a page of the right size has a free chunk. */
    method AllocFront(page: nat, shift: nat) returns (p: nat, ghost i: nat)
      requires Valid() && ShiftOk(geo, shift) && shift in lists && lists[shift] != [] && lists[shift][0] == page
      modifies this`mem, this`slices, this`lists, this`live, desc, stats
      ensures Valid() && page in old(slices) && lo <= page && InRange(geo, shift, i) && i !in old(slices)[page].used
      ensures forall j :: Reserved(geo, shift) <= j < i ==> j in old(slices)[page].used
      ensures p == ChunkAddr(geo, page, shift, i) && slices == Used(old(slices), page, i, true)
      ensures p !in old(live) && live == old(live)[p := Pow2(shift)] && ContentsKept(geo, old(mem), mem, old(live))
      ensures Counted(geo, old(stats[..]), stats[..], shift, 0, 1)
    {
      hide PoolOk, PagesOk, Took, UnusedPages, ContentsKept, TakenLists, ChunkAddr, Pow2, InRange, Front;
      FrontFacts(page, shift);
      ghost var d, mem0, stats0 := desc[..], mem, stats[..];
      ghost var d1;
      var chunk;
      chunk, d1 := TakeChunk(page, shift);
      i := chunk;
      p := ChunkAddr(geo, page, shift, chunk);
      var slot := shift - geo.minShift;
      stats[slot] := stats[slot].(used := stats[slot].used + 1);
      StepTake(geo, d, d1, desc[..], mem0, mem, blocks, free, slices, lists, stats0, stats[..], live, page, shift, i);
      live := live[p := Pow2(shift)];
      slices := Used(slices, page, i, true);
      lists := TakenLists(geo, lists, slices[page]);
    }

    /** The bitmap of a new page: the chunks that hold it and the first other are marked. */
    method InitBitmap(page: nat, n: nat, words: nat)
      requires (n + 1) / 64 < words && forall w: nat {:trigger (page, w) in mem} :: w < words ==> (page, w) in mem
      modifies this`mem
      ensures mem.Keys == old(mem).Keys && BitmapOnly(old(mem), mem, page, words) && InitedTo(mem, page, n, words)
    {
      ghost var was := mem;
      var i := 0;
      while i < (n + 1) / 64
        invariant i <= (n + 1) / 64 && Writing(was, mem, page, words, n, i)
      {
        WritingStep(was, mem, page, words, n, i);
        hide Writing;
        mem := mem[(page, i) := Ones(0, 64)];
        i := i + 1;
      }
      WritingStep(was, mem, page, words, n, i);
      hide Writing, Ones;
      mem := mem[(page, i) := Ones(0, (n + 1) % 64)];
      i := i + 1;
      while i < words
        invariant i <= words && n + 1 <= 64 * i && Writing(was, mem, page, words, n, i)
      {
        WritingStep(was, mem, page, words, n, i);
        assert Ones(0, 0) == {};
        mem := mem[(page, i) := {}];
        i := i + 1;
      }
      WritingDone(was, mem, page, words, n);
    }

    /** A page just taken is cut into chunks, and becomes the only one in its list. */
    method Cut(page: nat, shift: nat) returns (first: nat)
      requires GeometryOk(geo) && ShiftOk(geo, shift) && MemOk(geo, mem) && lo <= page < hi <= desc.Length
      modifies desc, this`mem
      ensures first == Reserved(geo, shift) && Listed1(geo, old(desc[..]), desc[..], page, shift)
      ensures FirstTaken(geo, desc[..], old(mem), mem, page, shift)
    {
      CountFacts(geo, shift);
      ReservedFacts(geo, shift);
      var head := Head(geo, shift);
      if shift < exactShift {
        var n := PageSize(geo) / Pow2(shift) / (Pow2(shift) * 8);
        if n == 0 {
          n := 1;
        }
        WordsInPage(geo, shift);
        forall w: nat | w < Words(geo, shift) ensures (page, w) in mem {}
        ghost var was := mem;
        InitBitmap(page, n, PageSize(geo) / Pow2(shift) / 64);
        desc[page] := Page(Num(shift), head, Tagged(head, SMALL));
        desc[head] := desc[head].(next := page);
        first := n;
        NewBitmap(geo, desc[..], was, mem, page, shift);
      } else if shift == exactShift {
        desc[page] := Page(Bits({0}), head, Tagged(head, EXACT));
        desc[head] := desc[head].(next := page);
        first := 0;
        NewWord(geo, desc[..], mem, page, shift);
      } else {
        desc[page] := Page(Bits({32} + BitsOf(shift)), head, Tagged(head, BIG));
        desc[head] := desc[head].(next := page);
        first := 0;
        NewWord(geo, desc[..], mem, page, shift);
      }
    }

    method CutCounted(page: nat, shift: nat) returns (first: nat)
      requires GeometryOk(geo) && ShiftOk(geo, shift) && MemOk(geo, mem) && lo <= page < hi <= desc.Length
      requires stats.Length == geo.ps - geo.minShift
      modifies desc, this`mem, stats
      ensures first == Reserved(geo, shift) && Listed1(geo, old(desc[..]), desc[..], page, shift)
      ensures FirstTaken(geo, desc[..], old(mem), mem, page, shift)
      ensures Counted(geo, old(stats[..]), stats[..], shift, Count(geo, shift) - Reserved(geo, shift), 1)
    {
      CountFacts(geo, shift);
      ReservedFacts(geo, shift);
      hide FirstTaken, Listed1, Reserved, Count;
      first := Cut(page, shift);
      var slot := shift - geo.minShift;
      stats[slot] := stats[slot].(total := stats[slot].total + (PageSize(geo) / Pow2(shift) - first),
                                  used := stats[slot].used + 1);
    }

    /** The page just taken becomes a page of chunks with its first chunk given out. The
        values before it was taken are `d`, `bl` and `fr`. */
    method CutFresh(page: nat, shift: nat, ghost d: seq<Page>, ghost bl: Blocks, ghost fr: seq<nat>) returns (p: nat)
      requires ShiftOk(geo, shift) && shift in lists && lists[shift] == [] && lo <= page < hi <= desc.Length
      requires PoolOk(geo, d, mem, bl, fr, slices, lists, stats[..], live)
      requires IsFree(bl, page) && 0 < bl[page].len && KeepsUsed(d, desc[..], bl) && PagesValid() &&
        blocks == Taken(bl, page, 1, Large)
      modifies this`mem, this`blocks, this`slices, this`lists, this`live, desc, stats
      ensures PagesValid() && PoolOk(geo, desc[..], mem, blocks, free, slices, lists, stats[..], live)
      ensures p == ChunkAddr(geo, page, shift, Reserved(geo, shift)) && 0 < p &&
        blocks == Taken(bl, page, 1, Chunks(KindOf(geo, shift)))
      ensures slices == old(slices)[page := Slice(shift, {Reserved(geo, shift)})] &&
        lists == old(lists)[shift := [page]]
      ensures p !in old(live) && live == old(live)[p := Pow2(shift)] && ContentsKept(geo, old(mem), mem, old(live))
      ensures |old(stats[..])| == geo.ps - geo.minShift
      ensures Counted(geo, old(stats[..]), stats[..], shift, Count(geo, shift) - Reserved(geo, shift), 1)
    {
      assert stats.Length == geo.ps - geo.minShift && MemOk(geo, mem);
      hide PagesOk, CoreOk, NoneEmpty, UnusedPages, Taken, KeepsUsed, FirstTaken, ContentsKept, Reserved, Count, IsFree,
        Listed1, PoolOk, ChunkAddr, Pow2, KindOf, Counted;
      ghost var d1, mem0, stats0 := desc[..], mem, stats[..];
      var n := CutCounted(page, shift);
      p := ChunkAddr(geo, page, shift, n);
      StepFresh(geo, d, d1, desc[..], mem0, mem, bl, fr, free, slices, lists, stats0, stats[..], live, page, shift);
      blocks := Taken(bl, page, 1, Chunks(KindOf(geo, shift)));
      slices := slices[page := Slice(shift, {n})];
      lists := lists[shift := [page]];
      live := live[p := Pow2(shift)];
    }

    /** mps_slab_alloc_locked when no page of the right size has a free chunk. */
    method AllocFresh(shift: nat) returns (p: nat, page: nat)
      requires Valid() && ShiftOk(geo, shift) && shift in lists && lists[shift] == []
      modifies this, desc, stats
      ensures Valid() && (p == 0 <==> !exists i: nat :: FreeFrom(old(blocks), lo, hi, i, 1))
      ensures p == 0 ==>
        Same(old(desc[..]), old(mem), old(blocks), old(free), old(slices), old(lists), old(stats[..]), old(live),
             old(pfree))
      ensures p != 0 ==>
        FirstFit(old(blocks), old(free), page, 1) && lo <= page && 0 < old(blocks)[page].len &&
        IsFree(old(blocks), page)
      ensures p != 0 ==> p == ChunkAddr(geo, page, shift, Reserved(geo, shift))
      ensures p != 0 ==> blocks == Taken(old(blocks), page, 1, Chunks(KindOf(geo, shift)))
      ensures p != 0 ==>
        p !in old(live) && live == old(live)[p := Pow2(shift)] && ContentsKept(geo, old(mem), mem, old(live))
      ensures p != 0 ==> Counted(geo, old(stats[..]), stats[..], shift, Count(geo, shift) - Reserved(geo, shift), 1)
    {
      assert stats.Length == geo.ps - geo.minShift;
      ghost var d, bl, fr := desc[..], blocks, free;
      page := AllocPages(1);
      if page == 0 {
        p := 0;
      } else {
        assert Placed(bl, lo, hi, page);
        hide PoolOk, PagesValid, KeepsUsed, Taken;
        p := CutFresh(page, shift, d, bl, fr);
      }
    }

    /** Nothing has changed. */
    ghost predicate Same(d: seq<Page>, m: Memory, bl: Blocks, fr: seq<nat>, sl: Slices, li: Lists, st: seq<Stat>,
                         lv: map<nat, nat>, pf: nat)
      reads this, desc, stats
    {
      desc[..] == d && mem == m && blocks == bl && free == fr && slices == sl && lists == li && stats[..] == st &&
      live == lv && pfree == pf
    }

    /** The address of pages just taken. */
    method GiveLarge(page: nat, pages: nat, ghost d: seq<Page>, ghost bl: Blocks, ghost fr: seq<nat>) returns (p: nat)
      requires lo <= page && IsFree(bl, page) && 0 < pages <= bl[page].len && KeepsUsed(d, desc[..], bl)
      requires PagesValid() && blocks == Taken(bl, page, pages, Large)
      requires PoolOk(geo, d, mem, bl, fr, slices, lists, stats[..], live)
      modifies this`live
      ensures PagesValid() && PoolOk(geo, desc[..], mem, blocks, free, slices, lists, stats[..], live)
      ensures p == Addr(geo, page, 0) && 0 < p && p !in old(live) && live == old(live)[p := pages * PageSize(geo)]
    {
      p := Addr(geo, page, 0);
      hide PagesOk, CoreOk, KeepsUsed, Taken, UnusedPages, NoneEmpty, IsFree, PoolOk, PageSize;
      StepLarge(geo, d, desc[..], mem, bl, fr, free, slices, lists, stats[..], live, page, pages);
      live := live[p := pages * PageSize(geo)];
    }

    /** mps_slab_alloc_locked for requests above half a page. */
    method AllocLarge(pages: nat) returns (p: nat)
      requires Valid() && 0 < pages
      modifies this`pfree, this`blocks, this`free, this`live, desc
      ensures Valid() && (p == 0 <==> !exists i: nat :: FreeFrom(old(blocks), lo, hi, i, pages))
      ensures p == 0 ==>
        Same(old(desc[..]), old(mem), old(blocks), old(free), old(slices), old(lists), old(stats[..]), old(live),
             old(pfree))
      ensures p != 0 ==> exists page: nat ::
        FirstFit(old(blocks), old(free), page, pages) && lo <= page && p == Addr(geo, page, 0)
      ensures p != 0 ==> p !in old(live) && live == old(live)[p := pages * PageSize(geo)]
    {
      ghost var d, bl, fr := desc[..], blocks, free;
      var page := AllocPages(pages);
      p := 0;
      if page != 0 {
        assert Placed(bl, lo, hi, page);
        hide PoolOk, PagesValid, KeepsUsed, Taken, FirstFit, PageSize;
        p := GiveLarge(page, pages, d, bl, fr);
      }
    }

    /** The smallest power of two that is at least `size`, by its exponent. */
    method SizeShift(size: nat) returns (shift: nat)
      requires 1 < size
      ensures 0 < shift && Pow2(shift - 1) < size <= Pow2(shift)
    {
      shift := 1;
      var s := size - 1;
      while s / 2 != 0
        invariant 0 < shift && 0 < s && s * Pow2(shift - 1) <= size - 1 < (s + 1) * Pow2(shift - 1)
      {
        Halve(s, Pow2(shift - 1), size - 1);
        s := s / 2;
        shift := shift + 1;
      }
      assert s == 1;
    }

    /** Chunk `i` is the lowest free one of `page`. */
    ghost predicate Lowest(sl: Slices, page: nat, shift: nat, i: nat) {
      page in sl && lo <= page && shift < geo.ps && InRange(geo, shift, i) && i !in sl[page].used &&
      forall j :: Reserved(geo, shift) <= j < i ==> j in sl[page].used
    }

    /** The request and failure counters of a size; no other counter changes but `total` and `used`. */
    ghost predicate Requested(st: seq<Stat>, shift: nat, failed: bool)
      reads stats
      requires ShiftOk(geo, shift)
    {
      var k := shift - geo.minShift;
      |st| == stats.Length == geo.ps - geo.minShift && stats[k].reqs == st[k].reqs + 1 &&
      stats[k].fails == st[k].fails + (if failed then 1 else 0) &&
      forall j {:trigger stats[j]} :: 0 <= j < |st| && j != k ==> stats[j] == st[j]
    }

    /** Where a chunk of `shift` comes from: the lowest free chunk of the first page in the
        list, or the first chunk of a new page. */
    ghost predicate Source(li: Lists, sl: Slices, bl: Blocks, fr: seq<nat>, shift: nat, p: nat)
      requires ShiftOk(geo, shift)
    {
      shift in li &&
      (li[shift] != [] ==> exists i ::
        Lowest(sl, li[shift][0], shift, i) && p == ChunkAddr(geo, li[shift][0], shift, i)) &&
      (li[shift] == [] ==> exists page ::
        FirstFit(bl, fr, page, 1) && lo <= page && p == ChunkAddr(geo, page, shift, Reserved(geo, shift)))
    }

    /** No counter changes but `total` and `used` of one size. */
    ghost predicate SameRequests(st: seq<Stat>, shift: nat)
      reads stats
      requires ShiftOk(geo, shift)
    {
      var k := shift - geo.minShift;
      |st| == stats.Length == geo.ps - geo.minShift && stats[k].reqs == st[k].reqs && stats[k].fails == st[k].fails &&
      forall j {:trigger stats[j]} :: 0 <= j < |st| && j != k ==> stats[j] == st[j]
    }

    /** mps_slab_alloc_locked for a chunk size, without the counting of requests. */
    method Serve(shift: nat) returns (p: nat)
      requires Valid() && ShiftOk(geo, shift)
      modifies this, desc, stats
      ensures Valid() && shift in old(lists) && SameRequests(old(stats[..]), shift)
      ensures p == 0 <==> old(lists)[shift] == [] && !exists i: nat :: FreeFrom(old(blocks), lo, hi, i, 1)
      ensures p == 0 ==>
        Same(old(desc[..]), old(mem), old(blocks), old(free), old(slices), old(lists), old(stats[..]), old(live),
             old(pfree))
      ensures p != 0 ==> Source(old(lists), old(slices), old(blocks), old(free), shift, p)
      ensures p != 0 ==>
        p !in old(live) && live == old(live)[p := Pow2(shift)] && ContentsKept(geo, old(mem), mem, old(live))
    {
      var head := Head(geo, shift);
      assert SlotOk(geo, desc[..], slices, lists, shift);
      FrontTest(desc[..], head, lists[shift], KindOf(geo, shift));
      var page := desc[head].next;
      hide PoolOk, PagesValid, FreeFrom, ContentsKept, FirstFit, InRange, SlotOk, Full;
      if desc[page].next != page {
        ghost var i;
        p, i := AllocFront(page, shift);
        assert Lowest(old(slices), page, shift, i);
      } else {
        p, page := AllocFresh(shift);
      }
    }

    /** mps_slab_alloc_locked for a chunk size. */
    method AllocChunk(shift: nat) returns (p: nat)
      requires Valid() && ShiftOk(geo, shift)
      modifies this, desc, stats
      ensures Valid() && shift in old(lists) && Requested(old(stats[..]), shift, p == 0)
      ensures p == 0 <==> old(lists)[shift] == [] && !exists i: nat :: FreeFrom(old(blocks), lo, hi, i, 1)
      ensures p == 0 ==>
        Same(old(desc[..]), old(mem), old(blocks), old(free), old(slices), old(lists), stats[..], old(live), old(pfree))
      ensures p != 0 ==> Source(old(lists), old(slices), old(blocks), old(free), shift, p)
      ensures p != 0 ==>
        p !in old(live) && live == old(live)[p := Pow2(shift)] && ContentsKept(geo, old(mem), mem, old(live))
    {
      var slot := shift - geo.minShift;
      assert stats.Length == geo.ps - geo.minShift;
      hide PoolOk, PagesValid, FreeFrom, ContentsKept, Source;
      Bump(slot, true);
      p := Serve(shift);
      if p == 0 {
        Bump(slot, false);
      }
    }

    /** A request, or a failed one, is counted. */
    method Bump(slot: nat, request: bool)
      requires Valid() && slot < geo.ps - geo.minShift && slot < stats.Length
      modifies stats
      ensures Valid()
      ensures stats[slot] == (if request then old(stats[slot]).(reqs := old(stats[slot].reqs) + 1)
                              else old(stats[slot]).(fails := old(stats[slot].fails) + 1))
      ensures forall j :: 0 <= j < stats.Length && j != slot ==> stats[j] == old(stats[j])
    {
      hide PagesOk, ChunksOk, NoneEmpty, LiveOk, UnusedPages;
      if request {
        stats[slot] := stats[slot].(reqs := stats[slot].reqs + 1);
      } else {
        stats[slot] := stats[slot].(fails := stats[slot].fails + 1);
      }
      forall s: nat | ShiftOk(geo, s) ensures StatOk(geo, stats[..][s - geo.minShift], slices, s) {
        assert StatOk(geo, old(stats[..])[s - geo.minShift], slices, s);
      }
    }

    ghost predicate RoomAt(shift: nat)
      reads this
    {
      shift in lists && (lists[shift] != [] || exists i: nat :: FreeFrom(blocks, lo, hi, i, 1))
    }

    /** There is room for `size` bytes: for large requests a run of free pages, otherwise a
        free chunk of the right size or a free page. */
    ghost predicate Room(size: nat)
      reads this
    {
      if size > PageSize(geo) / 2 then exists i: nat :: FreeFrom(blocks, lo, hi, i, PagesFor(geo, size))
      else exists shift: nat :: IsClass(geo, size, shift) && RoomAt(shift)
    }

    /** Which allocations are live is all that decides whether there is room. */
    lemma {:induction false} RoomIff(size: nat)
      requires Valid()
      ensures Room(size) <==> RoomIn(geo, live, size)
    {
      assert Covered(blocks, lo, hi);
      hide PagesOk, ChunksOk, Covered, LiveOk, StatsOk, NoneEmpty, FreeFrom, ClearFrom, Offers, PagesFor, IsClass;
      if size > PageSize(geo) / 2 {
        forall i: nat ensures FreeFrom(blocks, lo, hi, i, PagesFor(geo, size)) <==>
          ClearFrom(geo, live, i, PagesFor(geo, size)) {
          RunRoom(geo, desc[..], mem, blocks, slices, lists, live, i, PagesFor(geo, size));
        }
      } else {
        forall shift: nat | IsClass(geo, size, shift)
          ensures RoomAt(shift) <==> exists page: nat :: Offers(geo, live, shift, page)
        {
          ClassOk(geo, size, shift);
          ClassRoom(geo, desc[..], mem, blocks, slices, lists, live, shift);
        }
      }
    }

    /** mps_slab_alloc_locked. */
    method Alloc(size: nat) returns (p: nat)
      requires Valid()
      modifies this, desc, stats
      ensures Valid() && (p == 0 <==> !old(Room(size))) && (p == 0 <==> !RoomIn(geo, old(live), size))
      ensures if size > PageSize(geo) / 2 then p != 0 <==> PagesFree(geo, old(live), size)
              else p != 0 <==> ChunkFree(geo, old(live), size)
      ensures p == 0 ==>
        Same(old(desc[..]), old(mem), old(blocks), old(free), old(slices), old(lists), stats[..], old(live), old(pfree))
      ensures p != 0 ==>
        p in live && live == old(live)[p := live[p]] && Granted(geo, old(live), size, p, live[p]) &&
        RightSize(geo, size, live[p])
      ensures p != 0 ==> ContentsKept(geo, old(mem), mem, old(live))
    {
      var large := size > PageSize(geo) / 2;
      RoomIff(size);
      RoomMeans(size);
      hide PagesValid, FreeFrom, Source, IsClass, Requested, PageSize, PoolOk, FirstFit, RoomIn, Granted,
        PagesFree, ChunkFree, RightSize;
      ghost var was := live;
      hide ContentsKept, GivenChunk;
      if large {
        SameContents(geo, mem, live);
        var pages := PagesFor(geo, size);
        p := AllocLarge(pages);
      } else {
        ghost var d, m, bl, fr, sl, li, st := desc[..], mem, blocks, free, slices, lists, stats[..];
        var shift := ShiftFor(size);
        p := AllocChunk(shift);
        if p != 0 { SourceGives(d, m, bl, fr, sl, li, st, was, shift, p); }
      }
      if p != 0 {
        IsGranted(was, size, p);
        GrantedSize(geo, was, size, p, live[p]);
      }
    }

    /** What room for a request means in bytes. */
    lemma {:induction false} RoomMeans(size: nat)
      requires Valid()
      ensures RoomIn(geo, live, size) <==>
        if size > PageSize(geo) / 2 then PagesFree(geo, live, size) else ChunkFree(geo, live, size)
    {
      forall p | p in live ensures 0 < live[p] { Alignment(p); }
      assert GeometryOk(geo);
      hide PagesOk, ChunksOk, LiveOk, RoomIn, Unallocated, LeastPower, Spare, PageSize, GeometryOk;
      if size > PageSize(geo) / 2 { LargeIff(geo, live, size); } else { SmallIff(geo, live, size); }
    }

    /** Where a chunk comes from, told from the live allocations. */
    lemma {:induction false} SourceGives(d: seq<Page>, m: Memory, bl: Blocks, fr: seq<nat>, sl: Slices, li: Lists,
                                         st: seq<Stat>, was: map<nat, nat>, shift: nat, p: nat)
      requires PoolOk(geo, d, m, bl, fr, sl, li, st, was) && ShiftOk(geo, shift) && Source(li, sl, bl, fr, shift, p)
      ensures GivenChunk(geo, was, shift, p)
    {
      assert SlotOk(geo, d, sl, li, shift) && Covered(bl, lo, hi);
      hide ChunksOk, Covered, LiveOk, NoneEmpty, GivenChunk, StatsOk;
      if li[shift] != [] {
        var page := li[shift][0];
        assert page in li[shift] && InSlotOf(geo, sl, page, shift);
        var i: nat :| Lowest(sl, page, shift, i) && p == ChunkAddr(geo, page, shift, i);
        UsedPageGives(geo, d, m, bl, sl, li, was, shift, page, i);
      } else {
        var page: nat :| FirstFit(bl, fr, page, 1) && lo <= page &&
          p == ChunkAddr(geo, page, shift, Reserved(geo, shift));
        FirstFitFree(d, bl, fr, page);
        FreePageGives(geo, d, m, bl, sl, li, was, shift, page);
      }
    }

    lemma {:induction false} FirstFitFree(d: seq<Page>, bl: Blocks, fr: seq<nat>, page: nat)
      requires PagesOk(d, bl, fr, lo, hi) && FirstFit(bl, fr, page, 1)
      ensures lo <= page < hi && FreePage(bl, page)
    {
      assert page in fr && IsFree(bl, page);
      assert Placed(bl, lo, hi, page) && Within(bl, page, page);
    }

    /** What holds of every state makes the new allocation one that was granted. */
    lemma {:induction false} IsGranted(was: map<nat, nat>, size: nat, p: nat)
      requires Valid() && p !in was && p in live && live == was[p := live[p]] && size <= live[p] &&
        Grants(geo, size, live[p])
      requires size <= PageSize(geo) / 2 ==> exists shift: nat ::
        IsClass(geo, size, shift) && GivenChunk(geo, was, shift, p)
      ensures Granted(geo, was, size, p, live[p])
    {
      forall q | q in was ensures p + live[p] <= q || q + was[q] <= p {
        if p < q { Separate(p, q); } else { Separate(q, p); }
      }
      Alignment(p);
      LiveInside(geo, desc[..], mem, blocks, slices, lists, live, p);
    }

    /** The exponent of the chunk size for `size` bytes. */
    method ShiftFor(size: nat) returns (shift: nat)
      requires Valid() && size <= PageSize(geo) / 2
      ensures IsClass(geo, size, shift) && ShiftOk(geo, shift) && size <= Pow2(shift)
      ensures shift in lists && (Room(size) <==> lists[shift] != [] || exists i: nat :: FreeFrom(blocks, lo, hi, i, 1))
    {
      shift := geo.minShift;
      if size > Pow2(geo.minShift) {
        shift := SizeShift(size);
        AboveMin(geo, size, shift);
      }
      ClassOk(geo, size, shift);
      assert SlotOk(geo, desc[..], slices, lists, shift);
      OneClass(size, shift);
    }

    lemma {:induction false} OneClass(size: nat, shift: nat)
      requires IsClass(geo, size, shift) && size <= PageSize(geo) / 2 && shift in lists
      ensures Room(size) <==> lists[shift] != [] || exists i: nat :: FreeFrom(blocks, lo, hi, i, 1)
    {
      hide FreeFrom, IsClass;
      forall s: nat | IsClass(geo, size, s) ensures s == shift { ClassUnique(geo, size, s, shift); }
    }

    // ---------- freeing ----------

    /** A page that was full comes first in its list. */
    method Attach(page: nat, kind: Kind, head: nat, ghost items: seq<nat>)
      requires Listed(desc[..], head, items, kind) && 0 < page < desc.Length && page != head && page !in items
      modifies desc
      ensures Attached(old(desc[..]), desc[..], head, items, page, kind)
    {
      if items != [] { ListedNear(desc[..], head, items, kind, 0); }
      desc[page] := desc[page].(next := desc[head].next);
      desc[head] := desc[head].(next := page);
      desc[page] := desc[page].(prev := Tagged(head, kind));
      var next := desc[page].next;
      desc[next] := desc[next].(prev := Tagged(page, kind));
    }

    ghost predicate HoldsChunk(page: nat, shift: nat, i: nat)
      reads this, desc
    {
      GeometryOk(geo) && ChunksOk(geo, desc[..], mem, blocks, slices, lists) && page in slices &&
      slices[page].shift == shift &&
      ShiftOk(geo, shift) && i in slices[page].used && InRange(geo, shift, i)
    }

    /** The page is put in its list if it was full. */
    method Relink(page: nat, shift: nat, full: bool)
      requires GeometryOk(geo) && ChunksOk(geo, desc[..], mem, blocks, slices, lists)
      requires page in slices && slices[page].shift == shift && ShiftOk(geo, shift) &&
        (full <==> Full(geo, slices[page]))
      modifies desc
      ensures page < desc.Length && shift in lists && desc[page].slab == old(desc[page]).slab
      ensures if full then Attached(old(desc[..]), desc[..], Head(geo, shift), lists[shift], page, KindOf(geo, shift))
        else desc[..] == old(desc[..])
    {
      FullTest(geo, desc[..], mem, blocks, slices, lists, page);
      hide ChunksOk, Full, Listed;
      if full {
        Attach(page, KindOf(geo, shift), Head(geo, shift), lists[shift]);
      }
    }

    /** A chunk is taken back: its page is in its list again and its mark is cleared. */
    method GiveBack(page: nat, shift: nat, i: nat) returns (ghost d1: seq<Page>)
      requires HoldsChunk(page, shift, i)
      modifies desc, this`mem
      ensures Gave(geo, old(desc[..]), d1, desc[..], old(mem), mem, slices, lists, page, i)
    {
      ghost var d := desc[..];
      FullTest(geo, d, mem, blocks, slices, lists, page);
      CountFacts(geo, shift);
      assert page < |d| && FormOk(geo, d, mem, page, shift) && Marked(geo, d, mem, page, shift, i);
      if shift < exactShift {
        hide SliceOk, ChunksOk, Full, Listed, FormOk, InRange, Attached;
        Relink(page, shift, desc[page].next == 0);
        d1 := desc[..];
        mem := mem[(page, i / 64) := mem[(page, i / 64)] - {i % 64}];
      } else if shift == exactShift {
        ExactTests(geo, d, mem, slices, page);
        hide SliceOk, ChunksOk, Full, Listed, FormOk, InRange, Attached;
        Relink(page, shift, desc[page].slab.b == Ones(0, 64));
        d1 := desc[..];
        desc[page] := desc[page].(slab := Bits(desc[page].slab.b - {i}));
      } else {
        hide SliceOk, ChunksOk, Full, Listed, FormOk, InRange, Attached;
        Relink(page, shift, desc[page].next == 0);
        d1 := desc[..];
        desc[page] := desc[page].(slab := Bits(desc[page].slab.b - {i + 32}));
      }
    }

    /** Is no chunk of the page in use? */
    method IsEmpty(page: nat, shift: nat) returns (empty: bool)
      requires GeometryOk(geo) && page in slices && SliceOk(geo, desc[..], mem, slices, page) &&
        slices[page].shift == shift
      ensures empty <==> slices[page].used == {}
    {
      if shift < exactShift {
        empty := EmptySmall(page, shift);
      } else if shift == exactShift {
        ExactTests(geo, desc[..], mem, slices, page);
        return desc[page].slab.b == {};
      } else {
        BigTest(geo, desc[..], mem, slices, page);
        return MapBits(desc[page].slab.b) == {};
      }
    }

    method EmptySmall(page: nat, shift: nat) returns (empty: bool)
      requires GeometryOk(geo) && page in slices && SliceOk(geo, desc[..], mem, slices, page) &&
        slices[page].shift == shift
      requires KindOf(geo, shift).SMALL?
      ensures empty <==> slices[page].used == {}
    {
      SmallTest(geo, desc[..], mem, slices, page);
      CountFacts(geo, shift);
      hide SliceOk, Words, WordOk, BareWord, Bit;
      var n := PageSize(geo) / Pow2(shift) / (Pow2(shift) * 8);
      if n == 0 {
        n := 1;
      }
      assert n == Reserved(geo, shift);
      hide Reserved;
      empty := BareFrom(page, n, PageSize(geo) / Pow2(shift) / 64);
    }

    /** Are no marks set from chunk `n` on? */
    method BareFrom(page: nat, n: nat, words: nat) returns (bare: bool)
      requires n / 64 < words && forall w: nat {:trigger WordOk(mem, page, w)} :: w < words ==> WordOk(mem, page, w)
      ensures bare <==> forall w: nat {:trigger BareWord(mem, page, n, w)} ::
        n / 64 <= w < words ==> BareWord(mem, page, n, w)
    {
      var i := n / 64;
      assert WordOk(mem, page, i);
      BareTest(mem, page, n, i);
      if mem[(page, i)] - Ones(0, n % 64) != {} {
        return false;
      }
      i := i + 1;
      hide BareWord, Ones;
      while i < words
        invariant n / 64 < i <= words
        invariant forall w: nat {:trigger BareWord(mem, page, n, w)} :: n / 64 <= w < i ==> BareWord(mem, page, n, w)
      {
        assert WordOk(mem, page, i);
        BareTest(mem, page, n, i);
        if mem[(page, i)] != {} {
          return false;
        }
        i := i + 1;
      }
      return true;
    }

    /** The block at `page` is free again, with its free neighbours. */
    ghost predicate FreedAt(bl: Blocks, page: nat)
      reads this
    {
      page in bl && 0 < bl[page].len && !IsFree(bl, page) &&
      exists p :: LeftOf(bl, page, p) && (p.Some? ==> 0 < bl[p.value].len) && blocks == Freed(bl, page, p)
    }

    /** A page none of whose chunks is in use goes back to the free pages. The counters are
        `st` before and `st2` after. */
    method ReleasePage(page: nat, shift: nat, ghost st: seq<Stat>, ghost st2: seq<Stat>)
      requires page in slices && slices[page] == Slice(shift, {}) && ShiftOk(geo, shift) &&
        |st| == geo.ps - geo.minShift
      requires page < desc.Length && desc[page].next != 0 && PagesValid() && NoneEmpty(slices - {page})
      requires Counted(geo, st, st2, shift, Reserved(geo, shift) - Count(geo, shift), 0)
      requires CoreOk(geo, desc[..], mem, blocks, free, slices, lists, st, live)
      modifies this`pfree, this`blocks, this`free, this`slices, this`lists, desc
      ensures PagesValid() && PoolOk(geo, desc[..], mem, blocks, free, slices, lists, st2, live)
      ensures slices == old(slices) - {page} && FreedAt(old(blocks), page)
    {
      ghost var k := ReleaseReady(page, shift, st);
      hide PagesOk, CoreOk, Reserved, Count, NoneEmpty, InSlot, Freed, KeepsUsed, SlotLeft, UnusedPages, LeftOf,
        Dropped, IsFree;
      ghost var d, bl, fr, sl, li := desc[..], blocks, free, slices, lists;
      ghost var w, p := FreePages(page, 1, Head(geo, shift), li[shift], k, KindOf(geo, shift));
      StepGone(geo, d, w, desc[..], mem, bl, blocks, fr, free, sl, li, st, st2, live, shift, k, p);
      slices := slices - {page};
      lists := lists[shift := Dropped(li[shift], k)];
    }

    /** Where a page without chunks in use is found. */
    lemma {:induction false} ReleaseReady(page: nat, shift: nat, st: seq<Stat>) returns (k: nat)
      requires page in slices && slices[page] == Slice(shift, {}) && ShiftOk(geo, shift)
      requires CoreOk(geo, desc[..], mem, blocks, free, slices, lists, st, live)
      ensures GeometryOk(geo) && page in blocks && !IsFree(blocks, page) && blocks[page].len == 1 &&
        lo <= page < desc.Length
      ensures shift in lists && k < |lists[shift]| && lists[shift][k] == page
      ensures InSlot(page, Head(geo, shift), lists[shift], k, KindOf(geo, shift))
    {
      assert Matches(blocks, slices) && page in blocks && Placed(blocks, lo, hi, page);
      FullTest(geo, desc[..], mem, blocks, slices, lists, page);
      ReservedFacts(geo, shift);
      assert Reserved(geo, shift) !in slices[page].used;
      k :| 0 <= k < |lists[shift]| && lists[shift][k] == page;
      SlotInUse(shift);
    }

    /** The chunks that a page of a size gives out, as mps_slab_free_locked computes it. */
    function Usable(shift: nat): (n: nat)
      requires GeometryOk(geo) && ShiftOk(geo, shift)
      ensures n == Count(geo, shift) - Reserved(geo, shift)
    {
      CountFacts(geo, shift);
      ReservedFacts(geo, shift);
      var count := PageSize(geo) / Pow2(shift);
      if shift >= exactShift then count
      else var n := Quot(count, Pow2(shift) * 8); count - if n == 0 then 1 else n
    }

    lemma {:induction false} SlotInUse(shift: nat)
      requires GeometryOk(geo) && ChunksOk(geo, desc[..], mem, blocks, slices, lists) && ShiftOk(geo, shift) &&
        shift in lists
      ensures FREE_HEAD < Head(geo, shift) < lo
      ensures forall z: nat {:trigger z in lists[shift]} :: z in lists[shift] ==> z in blocks && blocks[z].use.Chunks?
    {
      assert SlotOk(geo, desc[..], slices, lists, shift);
      forall z: nat | z in lists[shift] ensures z in blocks &&
        blocks[z].use.Chunks? { assert InSlotOf(geo, slices, z, shift); }
    }

    /** How the pages change when chunk `i` of `page` is taken back: the page stays, or it goes
        back to the free pages with its last chunk. */
    ghost predicate ChunkGone(sl: Slices, bl: Blocks, page: nat, i: nat)
      reads this
    {
      page in sl &&
      if sl[page].used == {i} then slices == sl - {page} && FreedAt(bl, page)
      else slices == Used(sl, page, i, false) && blocks == bl
    }

    /** The chunk is taken back; its page may be left without chunks in use. The counters are
        `st` before and `st1` after. */
    method ClearChunk(page: nat, shift: nat, i: nat, ghost st: seq<Stat>, ghost st1: seq<Stat>)
      requires HoldsChunk(page, shift, i) && |st| == geo.ps - geo.minShift && Counted(geo, st, st1, shift, 0, -1)
      requires PoolOk(geo, desc[..], mem, blocks, free, slices, lists, st, live) && PagesValid()
      modifies this`mem, this`slices, this`lists, this`live, desc
      ensures CoreOk(geo, desc[..], mem, blocks, free, slices, lists, st1, live) && PagesValid()
      ensures lo <= page < desc.Length && desc[page].next != 0 && page in blocks
      ensures page in old(slices) && slices == Used(old(slices), page, i, false) &&
        SliceOk(geo, desc[..], mem, slices, page) && NoneEmpty(old(slices))
      ensures ChunkAddr(geo, page, shift, i) in old(live) && live == old(live) - {ChunkAddr(geo, page, shift, i)}
      ensures ContentsKept(geo, old(mem), mem, old(live))
    {
      ghost var d, mem0 := desc[..], mem;
      assert page in blocks &&
        lo <= page by { assert Matches(blocks, slices); assert SliceOk(geo, d, mem, slices, page); }
      assert shift in lists by { assert SlotOk(geo, d, slices, lists, shift); }
      hide PagesOk, Reserved, Count, NoneEmpty, UnusedPages, ContentsKept, Gave, InRange, ChunksOk, GaveLists, SliceOk,
        LiveOk, StatsOk, Counted;
      ghost var d1 := GiveBack(page, shift, i);
      StepGive(geo, d, d1, desc[..], mem0, mem, blocks, free, slices, lists, st, st1, live, page, shift, i);
      live := live - {ChunkAddr(geo, page, shift, i)};
      lists := GaveLists(geo, lists, slices, page);
      slices := Used(slices, page, i, false);
    }

    /** What is known of a page from which a chunk has just been taken back: `st` are the
        counters that the page and its list have, the counter of chunks in use is not lowered yet. */
    ghost predicate Pending(page: nat, shift: nat, st: seq<Stat>)
      reads this, desc, stats
    {
      page in slices && slices[page].shift == shift && ShiftOk(geo, shift) &&
      |st| == stats.Length == geo.ps - geo.minShift &&
      page < desc.Length && desc[page].next != 0 && PagesValid() && SliceOk(geo, desc[..], mem, slices, page) &&
      (if slices[page].used == {} then NoneEmpty(slices - {page}) else NoneEmpty(slices)) &&
      CoreOk(geo, desc[..], mem, blocks, free, slices, lists, st, live) &&
      var k := shift - geo.minShift;
      Count(geo, shift) - Reserved(geo, shift) <= stats[k].total && 0 < stats[k].used &&
      st == stats[..][k := stats[k].(used := stats[k].used - 1)]
    }

    /** The page goes back to the free pages if no chunk of it is in use. */
    method ReleaseIfEmpty(page: nat, shift: nat, ghost st: seq<Stat>) returns (ghost st2: seq<Stat>)
      requires Pending(page, shift, st)
      modifies this`pfree, this`blocks, this`free, this`slices, this`lists, desc, stats
      ensures PagesValid() && PoolOk(geo, desc[..], mem, blocks, free, slices, lists, st2, live)
      ensures if old(slices)[page].used == {} then slices == old(slices) - {page} && FreedAt(old(blocks), page)
        else slices == old(slices) && blocks == old(blocks)
      ensures var k := shift - geo.minShift;
        0 < stats[k].used && st2 == stats[..][k := stats[k].(used := stats[k].used - 1)] &&
        SameRequests(old(stats[..]), shift)
    {
      assert GeometryOk(geo);
      hide PagesValid, CoreOk, Reserved, Count, FreedAt, SliceOk, NoneEmpty;
      st2 := st;
      var slot := shift - geo.minShift;
      var empty := IsEmpty(page, shift);
      if empty {
        var usable := Usable(shift);
        st2 := st[slot := st[slot].(total := st[slot].total - usable)];
        ReleasePage(page, shift, st, st2);
        stats[slot] := stats[slot].(total := stats[slot].total - usable);
      }
    }

    /** The end of mps_slab_free_locked for a chunk. */
    method Finish(page: nat, shift: nat, ghost st: seq<Stat>)
      requires Pending(page, shift, st)
      modifies this`pfree, this`blocks, this`free, this`slices, this`lists, desc, stats
      ensures PagesValid() && PoolOk(geo, desc[..], mem, blocks, free, slices, lists, stats[..], live)
      ensures if old(slices)[page].used == {} then slices == old(slices) - {page} && FreedAt(old(blocks), page)
        else slices == old(slices) && blocks == old(blocks)
      ensures SameRequests(old(stats[..]), shift)
    {
      hide FreedAt, PoolOk, PagesValid, CoreOk, SliceOk, NoneEmpty, Count, Reserved;
      var slot := shift - geo.minShift;
      ghost var st2 := ReleaseIfEmpty(page, shift, st);
      stats[slot] := stats[slot].(used := stats[slot].used - 1);
      assert stats[..] == st2;
    }

    /** mps_slab_free_locked for a chunk in use. */
    method FreeChunk(page: nat, shift: nat, i: nat)
      requires Valid() && HoldsChunk(page, shift, i)
      modifies this, desc, stats
      ensures Valid() && lo <= page && ChunkAddr(geo, page, shift, i) in old(live)
      ensures live == old(live) - {ChunkAddr(geo, page, shift, i)} && ContentsKept(geo, old(mem), mem, old(live))
      ensures ChunkGone(old(slices), old(blocks), page, i) && SameRequests(old(stats[..]), shift)
    {
      ghost var st := stats[..];
      CountersPositive(geo, st, slices, page, i);
      LastChunk(slices, page, i);
      Removed(slices, page, i);
      hide PagesOk, CoreOk, Reserved, Count, ContentsKept, SliceOk, NoneEmpty, Used, FreedAt, UnusedPages;
      var slot := shift - geo.minShift;
      ghost var st1 := st[slot := st[slot].(used := st[slot].used - 1)];
      ClearChunk(page, shift, i, st, st1);
      assert Pending(page, shift, st1);
      Finish(page, shift, st1);
    }

    /** Is chunk `i` of the page marked? */
    method Test(page: nat, shift: nat, i: nat) returns (marked: bool)
      requires GeometryOk(geo) && page in slices && SliceOk(geo, desc[..], mem, slices, page) &&
        slices[page].shift == shift && i < Count(geo, shift)
      ensures marked <==> i < Reserved(geo, shift) || i in slices[page].used
    {
      ChunkTests(geo, desc[..], mem, slices, page, i);
      CountFacts(geo, shift);
      assert FormOk(geo, desc[..], mem, page, shift);
      if shift < exactShift {
        assert WordOk(mem, page, i / 64);
        hide SliceOk, FormOk;
        marked := i % 64 in mem[(page, i / 64)];
      } else if shift == exactShift {
        hide SliceOk;
        marked := i in desc[page].slab.b;
      } else {
        hide SliceOk;
        marked := i + 32 in desc[page].slab.b;
      }
    }

    /** mps_slab_free_locked for an address in a page of chunks. */
    method FreeInSlice(p: nat, page: nat, shift: nat, off: nat)
      requires Valid() && geo.start <= p && page == PageAt(geo, p) && off == OffAt(geo, p) && page in slices &&
        slices[page].shift == shift
      requires !OnBitmap(p)
      modifies this, desc, stats
      ensures Valid() && ContentsKept(geo, old(mem), mem, old(live))
      ensures p in old(live) ==> live == old(live) - {p}
      ensures p !in old(live) ==>
        Same(old(desc[..]), old(mem), old(blocks), old(free), old(slices), old(lists), old(stats[..]), old(live),
             old(pfree))
    {
      LiveAt(geo, desc[..], mem, blocks, free, slices, lists, stats[..], live, p);
      OneSlice(geo, desc[..], mem, blocks, slices, lists, page);
      ChunkInPage(geo, shift, off);
      SameContents(geo, mem, live);
      var size := Pow2(shift);
      if Rem(off, size) == 0 {
        var i := Quot(off, size);
        var marked := Test(page, shift, i);
        hide PoolOk, PagesValid, ContentsKept, ChunksOk, SliceOk, Pow2;
        if marked {
          assert HoldsChunk(page, shift, i);
          FreeChunk(page, shift, i);
        }
      }
    }

    /** mps_slab_free_locked for an address in any other page. */
    method FreeInPages(p: nat, page: nat, off: nat)
      requires Valid() && geo.start <= p && page == PageAt(geo, p) && off == OffAt(geo, p) && page < hi &&
        desc.Length >= hi
      requires desc[page].prev.kind.PAGE?
      modifies this`pfree, this`blocks, this`free, this`live, desc
      ensures Valid()
      ensures p in old(live) ==> live == old(live) - {p}
      ensures p !in old(live) ==>
        Same(old(desc[..]), old(mem), old(blocks), old(free), old(slices), old(lists), stats[..], old(live), old(pfree))
    {
      LiveAt(geo, desc[..], mem, blocks, free, slices, lists, stats[..], live, p);
      PageTests(desc[..], blocks, free, lo, hi, page);
      assert page in slices <==> page in blocks && blocks[page].use.Chunks?;
      if off == 0 && desc[page].slab.n >= START && desc[page].slab.n != BUSY {
        ghost var d, bl, fr := desc[..], blocks, free;
        assert Placed(bl, lo, hi, page);
        hide PagesOk, CoreOk, KeepsUsed, UnusedPages, NoneEmpty, Freed, LeftOf;
        ghost var w, q := FreePages(page, desc[page].slab.n - START, 0, [], 0, PAGE);
        StepLargeFreed(geo, d, desc[..], mem, bl, blocks, fr, free, slices, lists, stats[..], live, page, q);
        live := live - {p};
      }
    }

    /** The address is that of a chunk which holds a bitmap. */
    ghost predicate OnBitmap(p: nat)
      reads this
    {
      geo.start <= p && PageAt(geo, p) in slices && slices[PageAt(geo, p)].shift < geo.ps &&
      Rem(OffAt(geo, p), Pow2(slices[PageAt(geo, p)].shift)) == 0 &&
      Quot(OffAt(geo, p), Pow2(slices[PageAt(geo, p)].shift)) < Reserved(geo, slices[PageAt(geo, p)].shift)
    }

    /** mps_slab_free_locked. An address that is not live is left alone, whatever else it is,
        unless it is one of the chunks that hold a bitmap or in a page without a descriptor. */
    method Free(p: nat)
      requires Valid() && !OnBitmap(p) && (p < geo.start || p > end || PageAt(geo, p) < hi || tail != [])
      modifies this, desc, stats
      ensures Valid() && ContentsKept(geo, old(mem), mem, old(live))
      ensures p in old(live) ==> live == old(live) - {p}
      ensures p !in old(live) ==>
        Same(old(desc[..]), old(mem), old(blocks), old(free), old(slices), old(lists), old(stats[..]), old(live),
             old(pfree))
    {
      SameContents(geo, mem, live);
      hide PoolOk, PagesValid, ContentsKept, OnBitmap;
      if p < geo.start || p > end {
        Outside(p);
        return;
      }
      var page, off := PageAt(geo, p), OffAt(geo, p);
      if page >= hi {
        Behind(p);
        var spare := tail[page - hi];
        if !spare.prev.kind.PAGE? || (off == 0 && spare.slab.n >= START) {
          assert false;
        }
        // "page is already free", or "pointer to wrong chunk"
        return;
      }
      KindAt(page);
      if desc[page].prev.kind.PAGE? {
        FreeInPages(p, page, off);
        return;
      }
      var shift := ShiftAt(page);
      FreeInSlice(p, page, shift, off);
    }

    lemma {:induction false} Outside(p: nat)
      requires Valid() && (p < geo.start || p > end)
      ensures p !in live
    {
      LiveAt(geo, desc[..], mem, blocks, free, slices, lists, stats[..], live, p);
      if p > end {
        assert lo <= hi && geo.start <= geo.start + (hi - lo) * PageSize(geo) <= end by { AddrMono(geo, lo, hi); }
        hide PoolOk, PagesValid, Pow2;
        AbovePages(geo, p);
      }
    }

    /** Behind the managed pages there is at most the page of the spare descriptor. */
    lemma {:induction false} Behind(p: nat)
      requires Valid() && geo.start <= p <= end && hi <= PageAt(geo, p) && tail != []
      ensures PageAt(geo, p) == hi && tail == [CLEARED_PAGE] && p !in live
    {
      LiveAt(geo, desc[..], mem, blocks, free, slices, lists, stats[..], live, p);
      hide PoolOk, PagesValid;
      BelowNext(geo, p, hi + 1);
    }

    lemma {:induction false} KindAt(page: nat)
      requires Valid() && lo <= page < hi
      ensures page < desc.Length && hi <= desc.Length && (desc[page].prev.kind.PAGE? <==> page !in slices)
    {
      PageTests(desc[..], blocks, free, lo, hi, page);
      assert page in slices <==> page in blocks && blocks[page].use.Chunks?;
    }

    /** The chunk size of a page, by its kind and its `slab` word. */
    method ShiftAt(page: nat) returns (shift: nat)
      requires Valid() && page in slices && page < desc.Length
      ensures shift == slices[page].shift
    {
      OneSlice(geo, desc[..], mem, blocks, slices, lists, page);
      hide PagesOk, ChunksOk;
      assert FormOk(geo, desc[..], mem, page, slices[page].shift);
      match desc[page].prev.kind
      case SMALL =>
        return desc[page].slab.n % 16;
      case EXACT =>
        return exactShift;
      case BIG =>
        return LowBits(desc[page].slab.b);
      case PAGE =>
        assert false;
    }

    /** What a client does with its allocation: it writes a word of it. */
    method Write(a: nat, page: nat, n: nat, w: set<nat>)
      requires Valid() && a in live && (page, n) in mem && WordIn(geo, a, live[a], page, n)
      modifies this`mem
      ensures Valid() && mem == old(mem)[(page, n) := w] && ContentsKept(geo, old(mem), mem, live - {a})
    {
      ClientWrites(geo, desc[..], mem, blocks, free, slices, lists, stats[..], live, a, page, n, w);
      hide PoolOk, ContentsKept, PagesValid;
      mem := mem[(page, n) := w];
    }

    // ---------- what holds in every state ----------

    /** Live allocations lie inside the data pages and do not overlap each other. */
    lemma {:induction false} Separate(p: nat, q: nat)
      requires Valid() && p in live && q in live && p < q
      ensures geo.start <= p && p + live[p] <= q && q + live[q] <= end
    {
      LiveApart(geo, desc[..], mem, blocks, slices, lists, live, p, q);
      LiveInside(geo, desc[..], mem, blocks, slices, lists, live, p);
      LiveInside(geo, desc[..], mem, blocks, slices, lists, live, q);
    }

    lemma {:induction false} Below(p: nat)
      requires Valid() && p in live
      ensures p + live[p] <= end
    {
      LiveInside(geo, desc[..], mem, blocks, slices, lists, live, p);
      LiveAligned(geo, desc[..], mem, blocks, slices, lists, live, p);
    }

    /** A live allocation is aligned to its size, or to the page size if that is smaller. */
    lemma {:induction false} Alignment(p: nat)
      requires Valid() && p in live
      ensures 0 < live[p] && Rem(p, if live[p] < PageSize(geo) then live[p] else PageSize(geo)) == 0
    {
      LiveAligned(geo, desc[..], mem, blocks, slices, lists, live, p);
    }

    /** A live allocation does not overlap the bitmap of any page of small chunks. */
    lemma {:induction false} OffBitmaps(p: nat, page: nat)
      requires Valid() && p in live && page in slices && ShiftOk(geo, slices[page].shift) &&
        KindOf(geo, slices[page].shift).SMALL?
      ensures lo <= page &&
        (p + live[p] <= Addr(geo, page, 0) || Addr(geo, page, 0) + 8 * Words(geo, slices[page].shift) <= p)
    {
      LiveOffBitmap(geo, desc[..], mem, blocks, slices, lists, live, p, page);
    }

    /** A mark that the free of a chunk finds set means that the address is live, or that the
        chunk holds the bitmap: for those chunks, and only for those, the test is wrong. */
    lemma {:induction false} MarkedMeans(p: nat)
      requires Valid() && geo.start <= p && PageAt(geo, p) in slices && PageAt(geo, p) < desc.Length
      requires slices[PageAt(geo, p)].shift < geo.ps && Rem(OffAt(geo, p), Pow2(slices[PageAt(geo, p)].shift)) == 0
      ensures
        var page, shift := PageAt(geo, p), slices[PageAt(geo, p)].shift;
        Marked(geo, desc[..], mem, page, shift, Quot(OffAt(geo, p), Pow2(shift))) <==> p in live || OnBitmap(p)
      ensures OnBitmap(p) ==> p !in live
    {
      var page, shift := PageAt(geo, p), slices[PageAt(geo, p)].shift;
      LiveAt(geo, desc[..], mem, blocks, free, slices, lists, stats[..], live, p);
      OneSlice(geo, desc[..], mem, blocks, slices, lists, page);
      ChunkInPage(geo, shift, OffAt(geo, p));
      var i := Quot(OffAt(geo, p), Pow2(shift));
      ChunkTests(geo, desc[..], mem, slices, page, i);
      assert i in slices[page].used ==> InRange(geo, shift, i);
    }

    /** Every page of small chunks has such a chunk, its first. A free of its address would find
        the mark set and clear it; then the chunk that holds the bitmap passes for a free one,
        and it is the first one the next allocation finds. */
    lemma {:induction false} BitmapFreed(x: nat)
      requires Valid() && x in slices && ShiftOk(geo, slices[x].shift) && KindOf(geo, slices[x].shift).SMALL?
      ensures lo <= x < desc.Length && (x, 0) in mem && OnBitmap(Addr(geo, x, 0)) && Addr(geo, x, 0) !in live
      ensures
        var p, shift, cleared := Addr(geo, x, 0), slices[x].shift, mem[(x, 0) := mem[(x, 0)] - {0}];
        Marked(geo, desc[..], mem, x, shift, 0) && !Marked(geo, desc[..], cleared, x, shift, 0) &&
        ChunkAddr(geo, x, shift, 0) == p && Overlaps(geo, p, Pow2(shift), x, 0) &&
        !SliceOk(geo, desc[..], cleared, slices, x)
    {
      OneSlice(geo, desc[..], mem, blocks, slices, lists, x);
      hide PagesOk, ChunksOk, LiveOk, StatsOk;
      FirstCleared(geo, desc[..], mem, slices, x);
      FirstOnBitmap(x);
    }

    lemma {:induction false} FirstOnBitmap(x: nat)
      requires Valid() && x in slices && lo <= x && ShiftOk(geo, slices[x].shift) && 0 < Reserved(geo, slices[x].shift)
      ensures OnBitmap(Addr(geo, x, 0)) && Addr(geo, x, 0) !in live
    {
      var p := Addr(geo, x, 0);
      AddrDecode(geo, x, 0);
      LiveAt(geo, desc[..], mem, blocks, free, slices, lists, stats[..], live, p);
      OneSlice(geo, desc[..], mem, blocks, slices, lists, x);
      hide PagesOk, ChunksOk, LiveOk, StatsOk, Addr, Pow2, Reserved, Count;
      assert Quot(0, Pow2(slices[x].shift)) == 0 &&
        Rem(0, Pow2(slices[x].shift)) == 0 by { DivUnique(0, Pow2(slices[x].shift), 0, 0); }
    }

    /** Whole-run conservation: when everything is freed the pool is as new. */
    lemma {:induction false} AllFreed()
      requires Valid() && lo < hi && live == map[]
      ensures blocks == map[lo := Block(hi - lo, Use.Free)] && slices == map[] && pfree == hi - lo
      ensures stats.Length == geo.ps - geo.minShift
      ensures forall s: nat {:trigger ShiftOk(geo, s)} :: ShiftOk(geo, s) ==>
        s in lists && lists[s] == [] && stats[s - geo.minShift].used == 0 && stats[s - geo.minShift].total == 0
    {
      NothingLive(geo, desc[..], mem, blocks, slices, lists, stats[..]);
      WholeCount(lo, hi);
    }

    /** A live address can always be freed. */
    lemma {:induction false} LiveFreeable(p: nat)
      requires Valid() && p in live
      ensures geo.start <= p && PageAt(geo, p) < hi && !OnBitmap(p) && 0 < p
    {
      LiveAt(geo, desc[..], mem, blocks, free, slices, lists, stats[..], live, p);
      var t := PageAt(geo, p);
      if t in slices {
        OneSlice(geo, desc[..], mem, blocks, slices, lists, t);
        var i := Quot(OffAt(geo, p), Pow2(slices[t].shift));
        assert i in slices[t].used ==> InRange(geo, slices[t].shift, i);
      }
    }

    /** mps_slab_free_locked for a live address. What had room before has it still. */
    method Release(p: nat)
      requires Valid() && p in live
      modifies this, desc, stats
      ensures Valid() && live == old(live) - {p} && ContentsKept(geo, old(mem), mem, old(live))
      ensures forall n: nat :: old(Room(n)) ==> Room(n)
    {
      LiveFreeable(p);
      ghost var was := live;
      forall n: nat ensures Room(n) <==> RoomIn(geo, was, n) { RoomIff(n); }
      hide PoolOk, PagesValid, OnBitmap, RoomIn, Room;
      Free(p);
      forall n: nat ensures old(Room(n)) ==> Room(n) {
        RoomIff(n);
        if RoomIn(geo, was, n) { RoomFewer(geo, was, live, n); }
      }
    }
  }
}
