/** The chunk level of the pool: which chunks of a page are in use, how the descriptor or
    the bitmap in the page records it, and the lists of the partly used pages. */
module SlabChunks {
  import opened Seqs
  import opened Powers
  import opened SlabList
  import opened SlabBlocks
  import opened SlabPages
  import opened SlabLayout

  /** A page cut into chunks of two to the power of `shift` bytes, with those in use. */
  datatype Slice = Slice(shift: nat, used: set<nat>)

  type Slices = map<nat, Slice>

  /** The 64-bit words of the data pages, by page and place in it. */
  type Memory = map<(nat, nat), set<nat>>

  /** The pages that have a free chunk, for each chunk size. */
  type Lists = map<nat, seq<nat>>

  ghost predicate Bit(mem: Memory, page: nat, i: nat) {
    (page, i / 64) in mem && i % 64 in mem[(page, i / 64)]
  }

  /** The number in the four lowest bits of a word. */
  function LowBits(b: set<nat>): nat {
    (if 0 in b then 1 else 0) + (if 1 in b then 2 else 0) + (if 2 in b then 4 else 0) + (if 3 in b then 8 else 0)
  }

  /** The bits of a number below 16. */
  function BitsOf(n: nat): set<nat> {
    (if n % 2 == 1 then {0} else {}) + (if n / 2 % 2 == 1 then {1} else {}) +
    (if n / 4 % 2 == 1 then {2} else {}) + (if n / 8 % 2 == 1 then {3} else {})
  }

  /** The shift survives in the low bits whatever the bits from 32 on are. */
  lemma {:induction false} LowBitsOf(n: nat, b: set<nat>)
    requires n < 16 && forall j :: j in b ==> 32 <= j
    ensures LowBits(BitsOf(n) + b) == n
  {
  }

  /** Chunk `i` is marked as used, in the place where its size says. */
  ghost predicate Marked(g: Geometry, d: seq<Page>, mem: Memory, page: nat, shift: nat, i: nat)
    requires page < |d|
  {
    if KindOf(g, shift).SMALL? then Bit(mem, page, i)
    else d[page].slab.Bits? && (if KindOf(g, shift).EXACT? then i else i + 32) in d[page].slab.b
  }

  /** A word of a bitmap. */
  ghost predicate WordOk(mem: Memory, page: nat, n: nat) {
    (page, n) in mem && forall j :: j in mem[(page, n)] ==> j < 64
  }

  ghost predicate BitmapOk(mem: Memory, page: nat, words: nat) {
    forall n: nat {:trigger WordOk(mem, page, n)} :: n < words ==> WordOk(mem, page, n)
  }

  /** The `slab` word, and for small chunks the bitmap, have the right form. */
  ghost predicate FormOk(g: Geometry, d: seq<Page>, mem: Memory, page: nat, shift: nat)
    requires page < |d| && shift < g.ps
  {
    var kind, slab := KindOf(g, shift), d[page].slab;
    if kind.SMALL? then slab == Num(shift) && BitmapOk(mem, page, Words(g, shift))
    else slab.Bits? && if kind.EXACT? then forall j :: j in slab.b ==> j < 64
      else LowBits(slab.b) == shift && forall j :: j in slab.b ==> j < 4 || 32 <= j < 32 + Count(g, shift)
  }

  /** No chunk of the page is free. */
  ghost predicate Full(g: Geometry, s: Slice)
    requires s.shift < g.ps
  {
    forall i :: Reserved(g, s.shift) <= i < Count(g, s.shift) ==> i in s.used
  }

  /** The chunk is one of those given out. */
  ghost predicate InRange(g: Geometry, shift: nat, i: nat)
    requires shift < g.ps
  {
    Reserved(g, shift) <= i < Count(g, shift)
  }

  ghost predicate SliceOk(g: Geometry, d: seq<Page>, mem: Memory, sl: Slices, page: nat)
    requires page in sl
  {
    var s := sl[page];
    ShiftOk(g, s.shift) && g.lo <= page < g.hi <= |d| && (forall i :: i in s.used ==> InRange(g, s.shift, i)) &&
    d[page].prev.kind == KindOf(g, s.shift) && FormOk(g, d, mem, page, s.shift) && (Full(g, s) ==> d[page].next == 0) &&
    forall i: nat {:trigger Marked(g, d, mem, page, s.shift, i)} :: i < Count(g, s.shift) ==>
      (Marked(g, d, mem, page, s.shift, i) <==> i < Reserved(g, s.shift) || i in s.used)
  }

  /** A page is in the list of its size if and only if it has a free chunk. */
  ghost predicate SlotOk(g: Geometry, d: seq<Page>, sl: Slices, lists: Lists, shift: nat)
    requires ShiftOk(g, shift)
  {
    shift in lists && Listed(d, Head(g, shift), lists[shift], KindOf(g, shift)) &&
    forall x {:trigger x in lists[shift]} :: x in lists[shift] <==> InSlotOf(g, sl, x, shift)
  }

  ghost predicate InSlotOf(g: Geometry, sl: Slices, x: nat, shift: nat) {
    x in sl && sl[x].shift == shift && shift < g.ps && !Full(g, sl[x])
  }

  /** The slices are those of the blocks of chunks. */
  ghost predicate Matches(bl: Blocks, sl: Slices) {
    forall x {:trigger x in sl} {:trigger x in bl} :: x in sl <==> x in bl && bl[x].use.Chunks?
  }

  ghost predicate MemOk(g: Geometry, mem: Memory) {
    forall page, n {:trigger (page, n) in mem} :: (page, n) in mem <==> g.lo <= page < g.hi && 0 <= n < PageSize(g) / 8
  }

  ghost predicate ChunksOk(g: Geometry, d: seq<Page>, mem: Memory, bl: Blocks, sl: Slices, lists: Lists) {
    Matches(bl, sl) && MemOk(g, mem) &&
    (forall x {:trigger SliceOk(g, d, mem, sl, x)} :: x in sl ==> SliceOk(g, d, mem, sl, x)) &&
    (forall s {:trigger SlotOk(g, d, sl, lists, s)} :: ShiftOk(g, s) ==> SlotOk(g, d, sl, lists, s))
  }

  // ---------- frames ----------

  ghost predicate SameWords(mem: Memory, mem2: Memory, z: nat) {
    forall n: nat {:trigger (z, n) in mem} {:trigger (z, n) in mem2} ::
      ((z, n) in mem <==> (z, n) in mem2) && ((z, n) in mem ==> mem2[(z, n)] == mem[(z, n)])
  }

  /** What the other pages and slots keep. */
  lemma {:induction false} OtherSlice(g: Geometry, d: seq<Page>, e: seq<Page>, mem: Memory, mem2: Memory, sl: Slices,
                                      sl2: Slices, z: nat)
    requires z in sl && z in sl2 && sl2[z] == sl[z] && SliceOk(g, d, mem, sl, z) && |e| == |d|
    requires z < |d| && e[z].slab == d[z].slab && e[z].prev.kind == d[z].prev.kind
    requires sl[z].shift < g.ps && (Full(g, sl[z]) ==> e[z].next == d[z].next)
    requires SameWords(mem, mem2, z)
    ensures SliceOk(g, e, mem2, sl2, z)
  {
    var s := sl[z];
    forall n: nat | WordOk(mem, z, n) ensures WordOk(mem2, z, n) { assert (z, n) in mem; }
    forall i: nat | i < Count(g, s.shift)
      ensures Marked(g, e, mem2, z, s.shift, i) <==> i < Reserved(g, s.shift) || i in s.used
    {
      assert Marked(g, e, mem2, z, s.shift, i) <==> Marked(g, d, mem, z, s.shift, i);
    }
  }

  lemma {:induction false} OtherSlot(g: Geometry, d: seq<Page>, e: seq<Page>, sl: Slices, sl2: Slices, lists: Lists,
                                     lists2: Lists, s: nat)
    requires ShiftOk(g, s) && SlotOk(g, d, sl, lists, s) && s in lists2 && lists2[s] == lists[s] && |e| == |d|
    requires e[Head(g, s)].next == d[Head(g, s)].next
    requires forall x {:trigger e[x]} ::
      0 <= x < |d| && InSlotOf(g, sl, x, s) ==> e[x].next == d[x].next && e[x].prev == d[x].prev
    requires forall x {:trigger InSlotOf(g, sl2, x, s)} :: InSlotOf(g, sl2, x, s) <==> InSlotOf(g, sl, x, s)
    ensures SlotOk(g, e, sl2, lists2, s)
  {
    ListedFrame(d, e, Head(g, s), lists[s], KindOf(g, s));
  }

  // ---------- one bit ----------

  function Flip(b: set<nat>, j: nat, on: bool): set<nat> {
    if on then b + {j} else b - {j}
  }

  /** The mark of chunk `i` is set or cleared, and nothing else is written. */
  ghost predicate BitWritten(g: Geometry, d: seq<Page>, e: seq<Page>, mem: Memory, mem2: Memory, page: nat, shift: nat,
                             i: nat, on: bool) {
    var kind, w, j := KindOf(g, shift), (page, i / 64), if KindOf(g, shift).EXACT? then i else i + 32;
    page < |d| && |e| == |d| && (forall z {:trigger e[z]} :: 0 <= z < |d| && z != page ==> e[z] == d[z]) &&
    (kind.SMALL? ==> e == d && w in mem && mem2 == mem[w := Flip(mem[w], i % 64, on)]) &&
    (!kind.SMALL? ==> mem2 == mem && d[page].slab.Bits?) &&
    (!kind.SMALL? ==> e[page] == Page(Bits(Flip(d[page].slab.b, j, on)), d[page].next, d[page].prev))
  }

  lemma {:induction false} BitMarks(g: Geometry, d: seq<Page>, e: seq<Page>, mem: Memory, mem2: Memory, page: nat,
                                    shift: nat, i: nat, on: bool, j: nat)
    requires BitWritten(g, d, e, mem, mem2, page, shift, i, on)
    ensures Marked(g, e, mem2, page, shift, j) <==> if j == i then on else Marked(g, d, mem, page, shift, j)
  {
    if KindOf(g, shift).SMALL? {
      assert i / 64 == j / 64 && i % 64 == j % 64 ==> i == j;
      if i / 64 == j / 64 { assert mem2[(page, j / 64)] == Flip(mem[(page, i / 64)], i % 64, on); }
    }
  }

  lemma {:induction false} BitForm(g: Geometry, d: seq<Page>, e: seq<Page>, mem: Memory, mem2: Memory, page: nat,
                                   shift: nat, i: nat, on: bool)
    requires ShiftOk(g, shift) && i < Count(g, shift) && BitWritten(g, d, e, mem, mem2, page, shift, i, on)
    requires FormOk(g, d, mem, page, shift) && (KindOf(g, shift).EXACT? ==> i < 64)
    ensures FormOk(g, e, mem2, page, shift)
    ensures forall z {:trigger SameWords(mem, mem2, z)} :: z != page ==> SameWords(mem, mem2, z)
  {
    if KindOf(g, shift).SMALL? {
      forall n: nat | n < Words(g, shift) ensures WordOk(mem2, page, n) { assert WordOk(mem, page, n); }
    }
  }

  /** The page after one of its chunks is given out or taken back; its links may have
      changed as well. */
  lemma {:induction false} BitSlice(g: Geometry, d: seq<Page>, d1: seq<Page>, e: seq<Page>, mem: Memory, mem2: Memory,
                                    sl: Slices, sl2: Slices, page: nat, i: nat, on: bool)
    requires GeometryOk(g) && page in sl && SliceOk(g, d, mem, sl, page) && InRange(g, sl[page].shift, i)
    requires BitWritten(g, d, d1, mem, mem2, page, sl[page].shift, i, on) && |e| == |d|
    requires e[page].slab == d1[page].slab && e[page].prev.kind == d[page].prev.kind
    requires page in sl2 && sl2[page] == Slice(sl[page].shift, Flip(sl[page].used, i, on))
    requires Full(g, sl2[page]) ==> e[page].next == 0
    ensures SliceOk(g, e, mem2, sl2, page)
    ensures forall z {:trigger SameWords(mem, mem2, z)} :: z != page ==> SameWords(mem, mem2, z)
    ensures MemOk(g, mem) ==> MemOk(g, mem2)
  {
    var shift := sl[page].shift;
    CountFacts(g, shift);
    BitForm(g, d, d1, mem, mem2, page, shift, i, on);
    forall j: nat | j < Count(g, shift)
      ensures Marked(g, e, mem2, page, shift, j) <==> j < Reserved(g, shift) || j in sl2[page].used
    {
      BitMarks(g, d, d1, mem, mem2, page, shift, i, on, j);
      assert Marked(g, e, mem2, page, shift, j) <==> Marked(g, d1, mem2, page, shift, j);
    }
  }

  /** Pages of chunks other than `page` and list heads are as before, except that links
      change at the head of `shift` and in its list. */
  ghost predicate SlotTouched(g: Geometry, d: seq<Page>, e: seq<Page>, sl: Slices, page: nat, shift: nat)
    requires ShiftOk(g, shift)
  {
    |e| == |d| && forall z: nat {:trigger e[z]} :: z < |d| && z != page && (z in sl || FREE_HEAD < z < g.lo) ==>
      e[z] == d[z] || z == Head(g, shift) ||
      (InSlotOf(g, sl, z, shift) && e[z].slab == d[z].slab && e[z].prev.kind == d[z].prev.kind)
  }

  lemma {:induction false} UntouchedSlice(g: Geometry, d: seq<Page>, e: seq<Page>, mem: Memory, mem2: Memory,
                                          sl: Slices, sl2: Slices, page: nat, shift: nat, z: nat)
    requires GeometryOk(g) && ShiftOk(g, shift) && SlotTouched(g, d, e, sl, page, shift) && z in sl &&
      SliceOk(g, d, mem, sl, z)
    requires z in sl2 && sl2[z] == sl[z] && z != page && SameWords(mem, mem2, z)
    ensures SliceOk(g, e, mem2, sl2, z)
  {
    assert e[z] == d[z] || InSlotOf(g, sl, z, shift);
    OtherSlice(g, d, e, mem, mem2, sl, sl2, z);
  }

  lemma {:induction false} UntouchedSlot(g: Geometry, d: seq<Page>, e: seq<Page>, sl: Slices, sl2: Slices, lists: Lists,
                                         lists2: Lists, page: nat, shift: nat, s: nat)
    requires GeometryOk(g) && ShiftOk(g, shift) && SlotTouched(g, d, e, sl, page, shift) && g.lo <= page
    requires ShiftOk(g, s) && s != shift && SlotOk(g, d, sl, lists, s) && s in lists2 && lists2[s] == lists[s]
    requires forall z {:trigger z in sl2} :: z != page ==> (z in sl <==> z in sl2) && (z in sl ==> sl2[z] == sl[z])
    requires (page in sl ==> sl[page].shift == shift) && (page in sl2 ==> sl2[page].shift == shift)
    requires forall z {:trigger z in sl} :: z in sl ==> g.lo <= z
    ensures SlotOk(g, e, sl2, lists2, s)
  {
    hide Full;
    assert e[Head(g, s)] == d[Head(g, s)];
    forall x ensures InSlotOf(g, sl2, x, s) <==> InSlotOf(g, sl, x, s) { assert x in sl2 || x !in sl2; }
    OtherSlot(g, d, e, sl, sl2, lists, lists2, s);
  }

  /** An operation on `page`, of the size `shift`, is right if it is right for this page
      and this list. */
  lemma {:induction false} OneSlot(g: Geometry, d: seq<Page>, e: seq<Page>, mem: Memory, mem2: Memory, bl: Blocks,
                                   bl2: Blocks, sl: Slices, sl2: Slices, lists: Lists, lists2: Lists, page: nat,
                                   shift: nat)
    requires GeometryOk(g) && ChunksOk(g, d, mem, bl, sl, lists) && ShiftOk(g, shift) &&
      SlotTouched(g, d, e, sl, page, shift)
    requires g.lo <= page
    requires forall z {:trigger z in sl2} :: z != page ==> (z in sl <==> z in sl2) && (z in sl ==> sl2[z] == sl[z])
    requires page in sl ==> sl[page].shift == shift
    requires page in sl2 ==> sl2[page].shift == shift && SliceOk(g, e, mem2, sl2, page)
    requires forall s {:trigger s in lists2} :: s != shift && s in lists ==> s in lists2 && lists2[s] == lists[s]
    requires SlotOk(g, e, sl2, lists2, shift)
    requires forall z {:trigger SameWords(mem, mem2, z)} :: z != page ==> SameWords(mem, mem2, z)
    requires MemOk(g, mem2) && Matches(bl2, sl2)
    ensures ChunksOk(g, e, mem2, bl2, sl2, lists2)
  {
    forall z | z in sl2 ensures SliceOk(g, e, mem2, sl2, z) {
      if z != page {
        assert SliceOk(g, d, mem, sl, z) && SameWords(mem, mem2, z);
        UntouchedSlice(g, d, e, mem, mem2, sl, sl2, page, shift, z);
      }
    }
    forall z | z in sl ensures g.lo <= z { assert SliceOk(g, d, mem, sl, z); }
    forall s | ShiftOk(g, s) ensures SlotOk(g, e, sl2, lists2, s) {
      if s != shift {
        assert SlotOk(g, d, sl, lists, s);
        assert s in lists2 || s !in lists2;
        UntouchedSlot(g, d, e, sl, sl2, lists, lists2, page, shift, s);
      }
    }
  }

  // ---------- the lists of partly used pages ----------

  /** The page at position `k` has left its list and its links are cleared. */
  ghost predicate Detached(d: seq<Page>, e: seq<Page>, h: nat, items: seq<nat>, k: nat, kind: Kind)
    requires k < |items|
  {
    var x, a, b := items[k], Nth(h, items, k - 1), Nth(h, items, k + 1);
    x < |d| && a < |d| && b < |d| && |e| == |d| && Unlinked(d, e[x := d[x]], a, b, kind) &&
    e[x] == Page(d[x].slab, 0, Tagged(0, kind))
  }

  /** The page is put first in the list. */
  ghost predicate Attached(d: seq<Page>, e: seq<Page>, h: nat, items: seq<nat>, x: nat, kind: Kind) {
    var b := Nth(h, items, 0);
    x < |d| && h < |d| && b < |d| && |e| == |d| && x != h && x != b && e[h].next == x &&
    e[x] == Page(d[x].slab, b, Tagged(h, kind)) && (b != h ==> e[b] == d[b].(prev := Tagged(x, kind))) &&
    forall z {:trigger e[z]} :: 0 <= z < |d| && z != h && z != b && z != x ==> e[z] == d[z]
  }

  /** Only list heads and pages of chunks are written, and no page changes its kind. */
  ghost predicate SlotWrites(d: seq<Page>, e: seq<Page>, bl: Blocks, lo: nat) {
    |e| == |d| && forall z: nat {:trigger e[z]} :: z < |d| ==>
      e[z] == d[z] || FREE_HEAD < z < lo || (z in bl && bl[z].use.Chunks? && e[z].prev.kind == d[z].prev.kind)
  }

  /** The page allocator does not see such writes. */
  lemma {:induction false} SlotWritesPages(d: seq<Page>, e: seq<Page>, bl: Blocks, free: seq<nat>, lo: nat, hi: nat)
    requires PagesOk(d, bl, free, lo, hi) && SlotWrites(d, e, bl, lo)
    ensures PagesOk(e, bl, free, lo, hi)
  {
    assert Listed(e, FREE_HEAD, free, PAGE) by {
      forall z: nat | z < |d| && z in free ensures e[z] == d[z] { assert IsFree(bl, z) && Placed(bl, lo, hi, z); }
      assert FREE_HEAD in bl ==> Placed(bl, lo, hi, FREE_HEAD);
      ListedFrame(d, e, FREE_HEAD, free, PAGE);
    }
    forall t | t in bl ensures BlockOk(e, bl, hi, t) {
      assert BlockOk(d, bl, hi, t) && Placed(bl, lo, hi, t);
      if !bl[t].use.Chunks? {
        forall i | t < i < End(bl, t) ensures e[i] == d[i] { Interior(bl, t, i); }
        BlockOkFrame(d, e, bl, bl, hi, t);
      }
    }
  }

  /** The pages around position `k` of a list. */
  lemma {:induction false} SlotPages(g: Geometry, d: seq<Page>, mem: Memory, bl: Blocks, sl: Slices, lists: Lists,
                                     shift: nat, k: nat)
    requires GeometryOk(g) && ChunksOk(g, d, mem, bl, sl, lists) && ShiftOk(g, shift) && shift in lists &&
      k < |lists[shift]|
    ensures
      var h, items := Head(g, shift), lists[shift];
      var x, a, b := items[k], Nth(h, items, k - 1), Nth(h, items, k + 1);
      FREE_HEAD < h < g.lo && InSlotOf(g, sl, x, shift) && a != x && b != x &&
      0 <= x < |d| && 0 <= a < |d| && 0 < b < |d| && d[x] == Page(d[x].slab, b, Tagged(a, KindOf(g, shift))) &&
      (a == h || InSlotOf(g, sl, a, shift)) && (b == h || InSlotOf(g, sl, b, shift)) &&
      (a == b ==> a == h) && (b != h ==> d[b].prev.kind == KindOf(g, shift))
  {
    var h, items := Head(g, shift), lists[shift];
    var x, a, b := items[k], Nth(h, items, k - 1), Nth(h, items, k + 1);
    assert SlotOk(g, d, sl, lists, shift);
    ListedNear(d, h, items, KindOf(g, shift), k);
    assert x in items && (a != h ==> a in items) && (b != h ==> b in items);
    if b != h { ListedNear(d, h, items, KindOf(g, shift), k + 1); }
    assert 0 < k && k + 1 < |items| ==> items[k - 1] != items[k + 1];
  }

  /** What the removal of a page from its list writes. */
  lemma {:induction false} DetachedTouched(g: Geometry, d: seq<Page>, d1: seq<Page>, e: seq<Page>, mem: Memory,
                                           bl: Blocks, sl: Slices, lists: Lists, shift: nat, k: nat)
    requires GeometryOk(g) && ChunksOk(g, d, mem, bl, sl, lists) && ShiftOk(g, shift) && shift in lists &&
      k < |lists[shift]|
    requires lists[shift][k] < |d| && lists[shift][k] < |d1| &&
      d1 == d[lists[shift][k] := d[lists[shift][k]].(slab := d1[lists[shift][k]].slab)]
    requires Detached(d1, e, Head(g, shift), lists[shift], k, KindOf(g, shift))
    ensures SlotTouched(g, d, e, sl, lists[shift][k], shift) && SlotWrites(d, e, bl, g.lo)
  {
    SlotPages(g, d, mem, bl, sl, lists, shift, k);
    var x, a, b := lists[shift][k], Nth(Head(g, shift), lists[shift], k - 1), Nth(Head(g, shift), lists[shift], k + 1);
    assert forall z :: InSlotOf(g, sl, z, shift) ==> z in bl && bl[z].use.Chunks?;
    hide SlotOk, SliceOk, Full, ChunksOk, InSlotOf;
    var e1 := e[x := d1[x]];
    forall z | 0 <= z < |d| && z != x && z != a && z != b ensures e[z] == d[z] { assert e1[z] == d1[z]; }
  }

  /** The list of `shift` after its first page became full, or not. */
  lemma {:induction false} TakenSlot(g: Geometry, d: seq<Page>, d1: seq<Page>, e: seq<Page>, sl: Slices, sl2: Slices,
                                     lists: Lists, lists2: Lists, page: nat)
    requires page in sl && page in sl2 && ShiftOk(g, sl[page].shift) && sl2[page].shift == sl[page].shift &&
      sl2 == sl[page := sl2[page]]
    requires SlotOk(g, d, sl, lists, sl[page].shift) && !Full(g, sl[page]) && lists[sl[page].shift] != [] &&
      lists[sl[page].shift][0] == page
    requires page < |d| && page < |d1| && d1 == d[page := d[page].(slab := d1[page].slab)]
    requires !Full(g, sl2[page]) ==> e == d1 && lists2 == lists
    requires Full(g, sl2[page]) ==> var h, items := Head(g, sl[page].shift), lists[sl[page].shift];
      Detached(d1, e, h, items, 0, KindOf(g, sl[page].shift)) && lists2 == lists[sl[page].shift := Dropped(items, 0)]
    ensures SlotOk(g, e, sl2, lists2, sl[page].shift)
  {
    var shift := sl[page].shift;
    var h, items, kind := Head(g, shift), lists[shift], KindOf(g, shift);
    ListedNear(d, h, items, kind, 0);
    ListedFrame(d, d1, h, items, kind);
    forall x ensures InSlotOf(g, sl2, x, shift) <==> InSlotOf(g, sl, x, shift) && (x == page ==> !Full(g, sl2[page])) {}
    if Full(g, sl2[page]) {
      DroppedIn(items, 0);
      UnlinkedListed(d1, e[page := d1[page]], h, items, kind, 0);
      ListedFrame(e[page := d1[page]], e, h, Dropped(items, 0), kind);
    }
  }

  /** Chunk `i` of the page is given out or taken back. */
  ghost function Used(sl: Slices, page: nat, i: nat, on: bool): Slices
    requires page in sl
  {
    sl[page := Slice(sl[page].shift, Flip(sl[page].used, i, on))]
  }

  /** The lists after the first page of a list may have become full. */
  ghost function TakenLists(g: Geometry, lists: Lists, s: Slice): Lists
    requires s.shift < g.ps && s.shift in lists && lists[s.shift] != []
  {
    if Full(g, s) then lists[s.shift := Dropped(lists[s.shift], 0)] else lists
  }

  /** The lowest free chunk `i` of the first page of the list of `shift` is marked. */
  ghost predicate TookBit(g: Geometry, d: seq<Page>, d1: seq<Page>, mem: Memory, mem2: Memory, sl: Slices, lists: Lists,
                          page: nat, shift: nat, i: nat) {
    page in sl && sl[page].shift == shift && ShiftOk(g, shift) && shift in lists && lists[shift] != [] &&
    lists[shift][0] == page &&
    InRange(g, shift, i) && i !in sl[page].used && (forall j :: Reserved(g, shift) <= j < i ==> j in sl[page].used) &&
    BitWritten(g, d, d1, mem, mem2, page, shift, i, true)
  }

  /** No chunk is free any more once `i` is taken. */
  ghost predicate LastTaken(g: Geometry, sl: Slices, page: nat, i: nat) {
    page in sl && sl[page].shift < g.ps && Full(g, Used(sl, page, i, true)[page])
  }

  /** If that was the last free chunk the page leaves the list. */
  ghost predicate Took(g: Geometry, d: seq<Page>, d1: seq<Page>, e: seq<Page>, mem: Memory, mem2: Memory, sl: Slices,
                       lists: Lists, page: nat, shift: nat, i: nat) {
    TookBit(g, d, d1, mem, mem2, sl, lists, page, shift, i) &&
    (if LastTaken(g, sl, page, i) then Detached(d1, e, Head(g, shift), lists[shift], 0, KindOf(g, shift)) else e == d1)
  }

  /** After a chunk of the first page of a list is given out. */
  lemma {:induction false} TakenChunk(g: Geometry, d: seq<Page>, d1: seq<Page>, e: seq<Page>, mem: Memory, mem2: Memory,
                                      bl: Blocks, sl: Slices, lists: Lists, page: nat, shift: nat, i: nat)
    requires GeometryOk(g) && ChunksOk(g, d, mem, bl, sl, lists) &&
      Took(g, d, d1, e, mem, mem2, sl, lists, page, shift, i)
    ensures ChunksOk(g, e, mem2, bl, Used(sl, page, i, true), TakenLists(g, lists, Used(sl, page, i, true)[page]))
    ensures SlotWrites(d, e, bl, g.lo)
  {
    var sl2 := Used(sl, page, i, true);
    var lists2 := TakenLists(g, lists, sl2[page]);
    var h, items, kind := Head(g, shift), lists[shift], KindOf(g, shift);
    SlotPages(g, d, mem, bl, sl, lists, shift, 0);
    assert SliceOk(g, d, mem, sl, page) && SlotOk(g, d, sl, lists, shift);
    TakenSlot(g, d, d1, e, sl, sl2, lists, lists2, page);
    BitSlice(g, d, d1, e, mem, mem2, sl, sl2, page, i, true);
    if Full(g, sl2[page]) { DetachedTouched(g, d, d1, e, mem, bl, sl, lists, shift, 0); }
    hide SlotOk, SliceOk, Full;
    OneSlot(g, d, e, mem, mem2, bl, bl, sl, sl2, lists, lists2, page, shift);
  }

  /** What putting a page first in its list writes. */
  lemma {:induction false} AttachedTouched(g: Geometry, d: seq<Page>, d1: seq<Page>, e: seq<Page>, mem: Memory,
                                           bl: Blocks, sl: Slices, lists: Lists, shift: nat, page: nat)
    requires GeometryOk(g) && ChunksOk(g, d, mem, bl, sl, lists) && ShiftOk(g, shift) && shift in lists && page in sl
    requires Attached(d, d1, Head(g, shift), lists[shift], page, KindOf(g, shift)) && page < |e| &&
      e == d1[page := d1[page].(slab := e[page].slab)]
    requires d[page].prev.kind == KindOf(g, shift)
    ensures SlotTouched(g, d, e, sl, page, shift) && SlotWrites(d, e, bl, g.lo)
  {
    var h, items := Head(g, shift), lists[shift];
    if items != [] { SlotPages(g, d, mem, bl, sl, lists, shift, 0); }
    assert forall z :: InSlotOf(g, sl, z, shift) ==> z in bl && bl[z].use.Chunks?;
    hide SlotOk, SliceOk, Full, ChunksOk, InSlotOf;
    var b := Nth(h, items, 0);
    forall z | 0 <= z < |d| && z != page && z != h && z != b ensures e[z] == d[z] { assert d1[z] == d[z]; }
  }

  /** The list of `shift` after its page `page` got a free chunk. */
  lemma {:induction false} FreedSlot(g: Geometry, d: seq<Page>, d1: seq<Page>, e: seq<Page>, sl: Slices, sl2: Slices,
                                     lists: Lists, lists2: Lists, page: nat)
    requires page in sl && page in sl2 && ShiftOk(g, sl[page].shift) && sl2[page].shift == sl[page].shift &&
      sl2 == sl[page := sl2[page]]
    requires SlotOk(g, d, sl, lists, sl[page].shift) && !Full(g, sl2[page])
    requires 0 < page < |d| && |e| == |d| && |d1| == |d| && e == d1[page := d1[page].(slab := e[page].slab)]
    requires !Full(g, sl[page]) ==> d1 == d && lists2 == lists
    requires Full(g, sl[page]) ==> var h, items := Head(g, sl[page].shift), lists[sl[page].shift];
      Attached(d, d1, h, items, page, KindOf(g, sl[page].shift)) && lists2 == lists[sl[page].shift := [page] + items]
    ensures SlotOk(g, e, sl2, lists2, sl[page].shift)
  {
    var shift := sl[page].shift;
    var h, items, kind := Head(g, shift), lists[shift], KindOf(g, shift);
    assert page in items <==> InSlotOf(g, sl, page, shift);
    forall x ensures InSlotOf(g, sl2, x, shift) <==> InSlotOf(g, sl, x, shift) || x == page {}
    if Full(g, sl[page]) {
      if items != [] { ListedNear(d, h, items, kind, 0); }
      forall z: nat | z < |d| && z in items && z != items[0] ensures e[z] == d[z] {
        ListedMember(d, h, items, kind, z);
        assert d1[z] == d[z];
      }
      PushedListed(d, e, h, items, kind, page);
    } else {
      ListedFrame(d, e, h, items, kind);
    }
  }

  /** The lists after a chunk of a page is taken back. */
  ghost function GaveLists(g: Geometry, lists: Lists, sl: Slices, page: nat): Lists
    requires page in sl && sl[page].shift < g.ps && sl[page].shift in lists
  {
    if Full(g, sl[page]) then lists[sl[page].shift := [page] + lists[sl[page].shift]] else lists
  }

  /** A page that was full comes first in its list, then the mark of chunk `i` is cleared. */
  ghost predicate Gave(g: Geometry, d: seq<Page>, d1: seq<Page>, e: seq<Page>, mem: Memory, mem2: Memory, sl: Slices,
                       lists: Lists, page: nat, i: nat) {
    page in sl && ShiftOk(g, sl[page].shift) && sl[page].shift in lists && i in sl[page].used && page < |d| &&
    BitWritten(g, d1, e, mem, mem2, page, sl[page].shift, i, false) &&
    (if !Full(g, sl[page]) then d1 == d
     else Attached(d, d1, Head(g, sl[page].shift), lists[sl[page].shift], page, KindOf(g, sl[page].shift)))
  }

  /** After a chunk is taken back. */
  lemma {:induction false} FreedChunk(g: Geometry, d: seq<Page>, d1: seq<Page>, e: seq<Page>, mem: Memory, mem2: Memory,
                                      bl: Blocks, sl: Slices, lists: Lists, page: nat, i: nat)
    requires GeometryOk(g) && ChunksOk(g, d, mem, bl, sl, lists) && Gave(g, d, d1, e, mem, mem2, sl, lists, page, i)
    ensures ChunksOk(g, e, mem2, bl, Used(sl, page, i, false), GaveLists(g, lists, sl, page)) &&
      SlotWrites(d, e, bl, g.lo)
    ensures page < |e| && e[page].next != 0
  {
    var sl2, lists2 := Used(sl, page, i, false), GaveLists(g, lists, sl, page);
    var shift := sl[page].shift;
    var d2 := d[page := d[page].(slab := e[page].slab)];
    assert SliceOk(g, d, mem, sl, page) && SlotOk(g, d, sl, lists, shift);
    assert InRange(g, shift, i) && !Full(g, sl2[page]);
    assert BitWritten(g, d, d2, mem, mem2, page, shift, i, false);
    FreedSlot(g, d, d1, e, sl, sl2, lists, lists2, page);
    BitSlice(g, d, d2, e, mem, mem2, sl, sl2, page, i, false);
    if Full(g, sl[page]) { AttachedTouched(g, d, d1, e, mem, bl, sl, lists, shift, page); }
    assert InSlotOf(g, sl2, page, shift);
    ListedMember(e, Head(g, shift), lists2[shift], KindOf(g, shift), page);
    hide SlotOk, SliceOk, Full;
    OneSlot(g, d, e, mem, mem2, bl, bl, sl, sl2, lists, lists2, page, shift);
  }

  // ---------- a page is cut into chunks, or given back ----------

  lemma {:induction false} NotFreeAfter(bl: Blocks, lo: nat, hi: nat, page: nat, z: nat)
    requires Covered(bl, lo, hi) && page in bl && z != page && (z < lo || (z in bl && !IsFree(bl, z)))
    requires bl[page].len == 1
    ensures !FreePage(FreedAlone(bl, page), z)
  {
    var nb := FreedAlone(bl, page);
    forall s ensures !(IsFree(nb, s) && Within(nb, s, z)) {
      assert s in bl ==> Placed(bl, lo, hi, s);
      assert s in bl && z in bl ==> Apart(bl, s, z) && Apart(bl, z, s) && Placed(bl, lo, hi, z);
    }
  }

  lemma {:induction false} FreedMatches(bl: Blocks, lo: nat, hi: nat, sl: Slices, page: nat, p: Option<nat>)
    requires Covered(bl, lo, hi) && Matches(bl, sl) && page in sl && page in bl && 0 < bl[page].len && !IsFree(bl, page)
    requires LeftOf(bl, page, p) && (p.Some? ==> 0 < bl[p.value].len)
    ensures Matches(Freed(bl, page, p), sl - {page})
  {
    var nb := Freed(bl, page, p);
    forall x ensures x in sl - {page} <==> x in nb && nb[x].use.Chunks? {
      assert x in sl <==> x in bl && bl[x].use.Chunks?;
    }
  }

  lemma {:induction false} GoneKept(g: Geometry, w: seq<Page>, e: seq<Page>, bl: Blocks, sl: Slices, page: nat)
    requires Covered(bl, g.lo, g.hi) && Matches(bl, sl) && page in bl && bl[page].len == 1 &&
      KeepsUsed(w, e, FreedAlone(bl, page))
    requires FREE_HEAD < g.lo
    ensures forall z: nat {:trigger e[z]} :: z < |e| && z != page && (z in sl || FREE_HEAD < z < g.lo) ==> e[z] == w[z]
  {
    forall z: nat | z < |e| && z != page && (z in sl || FREE_HEAD < z < g.lo) ensures e[z] == w[z] {
      assert z in sl ==> z in bl && Placed(bl, g.lo, g.hi, z);
      NotFreeAfter(bl, g.lo, g.hi, page, z);
    }
  }

  /** After a page without chunks in use went back to the free pages. */
  lemma {:induction false} GoneSlice(g: Geometry, d: seq<Page>, w: seq<Page>, e: seq<Page>, mem: Memory, bl: Blocks,
                                     sl: Slices, lists: Lists, shift: nat, k: nat, p: Option<nat>)
    requires GeometryOk(g) && ChunksOk(g, d, mem, bl, sl, lists) && ShiftOk(g, shift) && shift in lists &&
      k < |lists[shift]|
    requires Covered(bl, g.lo, g.hi) && lists[shift][k] in bl && 0 < bl[lists[shift][k]].len &&
      !IsFree(bl, lists[shift][k])
    requires LeftOf(bl, lists[shift][k], p) && (p.Some? ==> 0 < bl[p.value].len)
    requires SlotLeft(d, w, lists[shift][k], Head(g, shift), lists[shift], k, KindOf(g, shift))
    requires KeepsUsed(w, e, FreedAlone(bl, lists[shift][k]))
    ensures ChunksOk(g, e, mem, Freed(bl, lists[shift][k], p), sl - {lists[shift][k]},
                     lists[shift := Dropped(lists[shift], k)])
  {
    var h, items, kind, page := Head(g, shift), lists[shift], KindOf(g, shift), lists[shift][k];
    var bl2, sl2, lists2 := Freed(bl, page, p), sl - {page}, lists[shift := Dropped(items, k)];
    SlotPages(g, d, mem, bl, sl, lists, shift, k);
    assert page in sl && Placed(bl, g.lo, g.hi, page);
    FreedMatches(bl, g.lo, g.hi, sl, page, p);
    GoneKept(g, w, e, bl, sl, page);
    hide Covered, Freed, LeftOf;
    assert SlotOk(g, d, sl, lists, shift);
    GoneSlot(g, d, w, e, sl, lists, shift, k);
    GoneTouched(g, d, w, e, mem, bl, sl, lists, shift, k);
    assert MemOk(g, mem);
    hide SlotOk, SliceOk, Full, Unlinked;
    OneSlot(g, d, e, mem, mem, bl, bl2, sl, sl2, lists, lists2, page, shift);
  }

  lemma {:induction false} GoneSlot(g: Geometry, d: seq<Page>, w: seq<Page>, e: seq<Page>, sl: Slices, lists: Lists,
                                    shift: nat, k: nat)
    requires GeometryOk(g) && ShiftOk(g, shift) && SlotOk(g, d, sl, lists, shift) && k < |lists[shift]|
    requires SlotLeft(d, w, lists[shift][k], Head(g, shift), lists[shift], k, KindOf(g, shift)) && |e| == |d| == |w|
    requires forall z: nat {:trigger e[z]} ::
      z < |d| && z != lists[shift][k] && (z in sl || FREE_HEAD < z < g.lo) ==> e[z] == w[z]
    ensures SlotOk(g, e, sl - {lists[shift][k]}, lists[shift := Dropped(lists[shift], k)], shift)
  {
    var h, items, kind, page := Head(g, shift), lists[shift], KindOf(g, shift), lists[shift][k];
    ListedNear(d, h, items, kind, k);
    UnlinkedListed(d, w, h, items, kind, k);
    DroppedIn(items, k);
    ListedFrame(w, e, h, Dropped(items, k), kind);
    forall x ensures InSlotOf(g, sl - {page}, x, shift) <==> InSlotOf(g, sl, x, shift) && x != page {}
  }

  lemma {:induction false} GoneTouched(g: Geometry, d: seq<Page>, w: seq<Page>, e: seq<Page>, mem: Memory, bl: Blocks,
                                       sl: Slices, lists: Lists, shift: nat, k: nat)
    requires GeometryOk(g) && ChunksOk(g, d, mem, bl, sl, lists) && ShiftOk(g, shift) && shift in lists &&
      k < |lists[shift]|
    requires SlotLeft(d, w, lists[shift][k], Head(g, shift), lists[shift], k, KindOf(g, shift)) && |e| == |d|
    requires |w| == |d|
    requires forall z: nat {:trigger e[z]} ::
      z < |d| && z != lists[shift][k] && (z in sl || FREE_HEAD < z < g.lo) ==> e[z] == w[z]
    ensures SlotTouched(g, d, e, sl, lists[shift][k], shift)
  {
    SlotPages(g, d, mem, bl, sl, lists, shift, k);
    hide ChunksOk, InSlotOf;
  }

  /** The descriptors after a newly taken page became the only one in the list of its size. */
  ghost predicate Listed1(g: Geometry, d: seq<Page>, e: seq<Page>, page: nat, shift: nat)
    requires ShiftOk(g, shift)
  {
    var h := Head(g, shift);
    |e| == |d| && page < |d| && h < |d| && page != h && e[h].next == page && e[page].next == h &&
    e[page].prev == Tagged(h, KindOf(g, shift)) &&
    forall z {:trigger e[z]} :: 0 <= z < |d| && z != page && z != h ==> e[z] == d[z]
  }

  /** Only the words of the bitmap of `page` may differ. */
  ghost predicate BitmapOnly(mem: Memory, mem2: Memory, page: nat, words: nat) {
    forall z, n: nat {:trigger (z, n) in mem} :: (z, n) in mem && (z != page || words <= n) ==>
      (z, n) in mem2 && mem2[(z, n)] == mem[(z, n)]
  }

  lemma {:induction false} BitOnly(g: Geometry, d: seq<Page>, e: seq<Page>, mem: Memory, mem2: Memory, page: nat,
                                   shift: nat, i: nat, on: bool)
    requires BitWritten(g, d, e, mem, mem2, page, shift, i, on) && shift < g.ps && GeometryOk(g) && ShiftOk(g, shift) &&
      i < Count(g, shift)
    ensures BitmapOnly(mem, mem2, page, Words(g, shift)) && (!KindOf(g, shift).SMALL? ==> mem2 == mem)
  {
    CountFacts(g, shift);
  }

  /** A page of which only the first chunk that is not set aside is in use. */
  ghost predicate FirstTaken(g: Geometry, e: seq<Page>, mem: Memory, mem2: Memory, page: nat, shift: nat)
    requires ShiftOk(g, shift) && page < |e|
  {
    FormOk(g, e, mem2, page, shift) && MemOk(g, mem2) && BitmapOnly(mem, mem2, page, Words(g, shift)) &&
    (!KindOf(g, shift).SMALL? ==> mem2 == mem) &&
    (forall z {:trigger SameWords(mem, mem2, z)} :: z != page ==> SameWords(mem, mem2, z)) &&
    forall j: nat {:trigger Marked(g, e, mem2, page, shift, j)} :: j < Count(g, shift) ==>
      (Marked(g, e, mem2, page, shift, j) <==> j <= Reserved(g, shift))
  }

  lemma {:induction false} TakenMatches(bl: Blocks, lo: nat, hi: nat, sl: Slices, page: nat, s: Slice, kind: Kind)
    requires Covered(bl, lo, hi) && Matches(bl, sl) && IsFree(bl, page) && 0 < bl[page].len
    ensures Matches(Taken(bl, page, 1, Chunks(kind)), sl[page := s])
  {
    var nb := Taken(bl, page, 1, Chunks(kind));
    assert Placed(bl, lo, hi, page);
    assert page + 1 in bl && 1 < bl[page].len ==> Apart(bl, page, page + 1);
    forall x ensures x in sl[page := s] <==> x in nb && nb[x].use.Chunks? {
      assert x in sl <==> x in bl && bl[x].use.Chunks?;
    }
  }

  /** After a free page was taken and cut into chunks. */
  lemma {:induction false} FreshSlice(g: Geometry, d: seq<Page>, d1: seq<Page>, e: seq<Page>, mem: Memory, mem2: Memory,
                                      bl: Blocks, sl: Slices, lists: Lists, shift: nat, page: nat)
    requires GeometryOk(g) && ChunksOk(g, d, mem, bl, sl, lists) && ShiftOk(g, shift) && shift in lists &&
      lists[shift] == []
    requires Covered(bl, g.lo, g.hi) && IsFree(bl, page) && 0 < bl[page].len && g.hi <= |d|
    requires KeepsUsed(d, d1, bl) && Listed1(g, d1, e, page, shift) && FirstTaken(g, e, mem, mem2, page, shift)
    ensures ChunksOk(g, e, mem2, Taken(bl, page, 1, Chunks(KindOf(g, shift))),
                     sl[page := Slice(shift, {Reserved(g, shift)})], lists[shift := [page]])
  {
    var kind, s, h := KindOf(g, shift), Slice(shift, {Reserved(g, shift)}), Head(g, shift);
    var bl2, sl2, lists2 := Taken(bl, page, 1, Chunks(kind)), sl[page := s], lists[shift := [page]];
    assert Placed(bl, g.lo, g.hi, page) && page !in sl;
    TakenMatches(bl, g.lo, g.hi, sl, page, s, kind);
    ReservedFacts(g, shift);
    assert !Full(g, s) by { assert Reserved(g, shift) + 1 !in s.used; }
    assert SlotOk(g, d, sl, lists, shift);
    FreshTouched(g, d, d1, e, bl, sl, page, shift);
    PushedListed(d, e, h, [], kind, page);
    hide SliceOk;
    assert SlotOk(g, e, sl2, lists2, shift) by {
      forall x ensures InSlotOf(g, sl2, x, shift) <==>
        x == page { assert x in lists[shift] <==> InSlotOf(g, sl, x, shift); }
    }
    assert SliceOk(g, e, mem2, sl2, page);
    hide SlotOk, Full, Covered, Taken;
    OneSlot(g, d, e, mem, mem2, bl, bl2, sl, sl2, lists, lists2, page, shift);
  }

  lemma {:induction false} FreshTouched(g: Geometry, d: seq<Page>, d1: seq<Page>, e: seq<Page>, bl: Blocks, sl: Slices,
                                        page: nat, shift: nat)
    requires GeometryOk(g) && ShiftOk(g, shift) && Covered(bl, g.lo, g.hi) && Matches(bl, sl) && KeepsUsed(d, d1, bl)
    requires Listed1(g, d1, e, page, shift)
    ensures SlotTouched(g, d, e, sl, page, shift)
  {
    forall z: nat | z < |d| && z != page && (z in sl || FREE_HEAD < z < g.lo) ensures e[z] == d[z] ||
      z == Head(g, shift) {
      assert z in sl ==> z in bl && Placed(bl, g.lo, g.hi, z);
      forall s ensures !(IsFree(bl, s) && Within(bl, s, z)) {
        assert s in bl ==> Placed(bl, g.lo, g.hi, s);
        assert s in bl && z in bl ==> Apart(bl, s, z) && Apart(bl, z, s);
      }
      assert d1[z] == d[z];
    }
  }

  /** A block of one page may be used for chunks: the pages do not change. */
  lemma {:induction false} FreshTiled(bl: Blocks, lo: nat, hi: nat, page: nat, kind: Kind)
    requires Tiled(bl, lo, hi) && page in bl && bl[page] == Block(1, Large) && !kind.PAGE?
    ensures Tiled(bl[page := Block(1, Chunks(kind))], lo, hi)
    ensures UnusedPages(bl[page := Block(1, Chunks(kind))], lo, hi) == UnusedPages(bl, lo, hi)
  {
    var nb := bl[page := Block(1, Chunks(kind))];
    forall t | t in nb ensures Placed(nb, lo, hi, t) { assert Placed(bl, lo, hi, t); }
    forall t, u | t in nb && u in nb ensures Apart(nb, t, u) { assert Apart(bl, t, u); }
    forall t ensures IsFree(nb, t) <==> IsFree(bl, t) {}
    hide Placed, Apart;
    forall i: nat ensures FreePage(nb, i) <==> FreePage(bl, i) {
      assert forall s :: IsFree(nb, s) && Within(nb, s, i) <==> IsFree(bl, s) && Within(bl, s, i);
    }
  }

  /** The page allocator sees one block of one page, whatever it is used for. */
  lemma {:induction false} FreshPages(g: Geometry, d: seq<Page>, e: seq<Page>, bl: Blocks, free: seq<nat>, shift: nat,
                                      page: nat)
    requires GeometryOk(g) && ShiftOk(g, shift) && PagesOk(d, bl, free, g.lo, g.hi) && page in bl &&
      bl[page] == Block(1, Large)
    requires Listed1(g, d, e, page, shift)
    ensures PagesOk(e, bl[page := Block(1, Chunks(KindOf(g, shift)))], free, g.lo, g.hi)
    ensures UnusedPages(bl[page := Block(1, Chunks(KindOf(g, shift)))], g.lo, g.hi) == UnusedPages(bl, g.lo, g.hi)
  {
    var nb, lo, hi := bl[page := Block(1, Chunks(KindOf(g, shift)))], g.lo, g.hi;
    FreshTiled(bl, lo, hi, page, KindOf(g, shift));
    forall x: nat ensures x in free <==> IsFree(nb, x) { assert x in free <==> IsFree(bl, x); }
    forall t | t in nb ensures BlockOk(e, nb, hi, t) {
      assert BlockOk(d, bl, hi, t) && Placed(bl, lo, hi, t) && Apart(bl, t, page) && Apart(bl, page, t) &&
        Placed(bl, lo, hi, page);
      if t != page { BlockOkFrame(d, e, bl, nb, hi, t); }
    }
    forall z: nat | z < |d| && z in free ensures e[z] == d[z] { assert IsFree(bl, z) && Placed(bl, lo, hi, z); }
    hide Tiled, BlockOk, Placed, Apart;
    ListedFrame(d, e, FREE_HEAD, free, PAGE);
  }

  // ---------- the scans for a free chunk ----------

  /** The bits `from` to `from + n`. */
  function Ones(from: nat, n: nat): (b: set<nat>)
    ensures forall j: nat :: j in b <==> from <= j < from + n
  {
    if n == 0 then {} else Ones(from, n - 1) + {from + n - 1}
  }

  /** A page that is not full has a free chunk; the page in front of a list is not full. */
  lemma {:induction false} FrontNotFull(g: Geometry, d: seq<Page>, mem: Memory, bl: Blocks, sl: Slices, lists: Lists,
                                        shift: nat) returns (i: nat)
    requires GeometryOk(g) && ChunksOk(g, d, mem, bl, sl, lists) && ShiftOk(g, shift) && shift in lists &&
      lists[shift] != []
    ensures
      var page := lists[shift][0];
      page in sl && sl[page].shift == shift && SliceOk(g, d, mem, sl, page) && InRange(g, shift, i) &&
      i !in sl[page].used &&
      !Marked(g, d, mem, page, shift, i) && SlotOk(g, d, sl, lists, shift) && page < |d|
  {
    var page := lists[shift][0];
    assert SlotOk(g, d, sl, lists, shift);
    assert page in lists[shift] && InSlotOf(g, sl, page, shift);
    assert SliceOk(g, d, mem, sl, page);
    i :| Reserved(g, shift) <= i < Count(g, shift) && i !in sl[page].used;
  }

  /** The lowest chunk that is not marked is the lowest free one. */
  lemma {:induction false} LowestFree(g: Geometry, d: seq<Page>, mem: Memory, sl: Slices, page: nat, i: nat)
    requires page in sl && SliceOk(g, d, mem, sl, page) && i < Count(g, sl[page].shift) &&
      !Marked(g, d, mem, page, sl[page].shift, i)
    requires forall j: nat {:trigger Marked(g, d, mem, page, sl[page].shift, j)} ::
      j < i ==> Marked(g, d, mem, page, sl[page].shift, j)
    ensures InRange(g, sl[page].shift, i) && i !in sl[page].used
    ensures forall j :: Reserved(g, sl[page].shift) <= j < i ==> j in sl[page].used
  {
    forall j: nat | Reserved(g, sl[page].shift) <= j < i ensures j in sl[page].used {
      assert Marked(g, d, mem, page, sl[page].shift, j);
    }
  }

  /** The page is full if and only if every chunk is marked. */
  lemma {:induction false} FullMarked(g: Geometry, d: seq<Page>, e: seq<Page>, mem: Memory, mem2: Memory, sl: Slices,
                                      page: nat, i: nat)
    requires page in sl && SliceOk(g, d, mem, sl, page) && InRange(g, sl[page].shift, i)
    requires BitWritten(g, d, e, mem, mem2, page, sl[page].shift, i, true)
    ensures Full(g, Used(sl, page, i, true)[page]) <==>
      forall j: nat {:trigger Marked(g, e, mem2, page, sl[page].shift, j)} ::
        j < Count(g, sl[page].shift) ==> Marked(g, e, mem2, page, sl[page].shift, j)
  {
    var shift, u := sl[page].shift, Used(sl, page, i, true)[page].used;
    forall j: nat | j < Count(g, shift)
      ensures Marked(g, e, mem2, page, shift, j) <==> j < Reserved(g, shift) || j in u
    {
      BitMarks(g, d, e, mem, mem2, page, shift, i, true, j);
    }
    if forall j: nat :: j < Count(g, shift) ==> Marked(g, e, mem2, page, shift, j) {
      forall j | Reserved(g, shift) <= j < Count(g, shift) ensures j in u { assert Marked(g, e, mem2, page, shift, j); }
    }
  }

  lemma {:induction false} SomeZero(w: set<nat>)
    requires w != Ones(0, 64) && forall j :: j in w ==> j < 64
    ensures exists j: nat :: 0 <= j < 64 && j !in w
  {
    var ones := Ones(0, 64);
    assert ones - w != {} by { assert ones <= w ==> ones == w; }
    var j :| j in ones - w;
  }

  ghost predicate BusyWord(mem: Memory, page: nat, n: nat) {
    (page, n) in mem && mem[(page, n)] == Ones(0, 64)
  }

  /** The words of a bitmap are all ones if and only if all their chunks are marked. */
  lemma {:induction false} BusyWords(mem: Memory, page: nat, from: nat, to: nat)
    requires from <= to && forall n: nat {:trigger WordOk(mem, page, n)} :: from <= n < to ==> WordOk(mem, page, n)
    ensures (forall n: nat {:trigger BusyWord(mem, page, n)} :: from <= n < to ==> BusyWord(mem, page, n)) <==>
      (forall j: nat {:trigger Bit(mem, page, j)} :: 64 * from <= j < 64 * to ==> Bit(mem, page, j))
  {
    if forall n: nat {:trigger BusyWord(mem, page, n)} :: from <= n < to ==> BusyWord(mem, page, n) {
      forall j: nat | 64 * from <= j < 64 * to ensures Bit(mem, page, j) { assert BusyWord(mem, page, j / 64); }
    }
    if forall j: nat {:trigger Bit(mem, page, j)} :: 64 * from <= j < 64 * to ==> Bit(mem, page, j) {
      forall n: nat | from <= n < to ensures BusyWord(mem, page, n) {
        assert WordOk(mem, page, n);
        forall k: nat | k < 64 ensures k in mem[(page, n)] { assert Bit(mem, page, 64 * n + k); }
      }
    }
  }

  /** Taking the chunk that a scan of the `slab` word has found. */
  lemma {:induction false} WordTook(g: Geometry, d: seq<Page>, d1: seq<Page>, mem: Memory, bl: Blocks, sl: Slices,
                                    lists: Lists, page: nat, shift: nat, i: nat)
    requires GeometryOk(g) && ChunksOk(g, d, mem, bl, sl, lists) && ShiftOk(g, shift) && shift in lists &&
      lists[shift] != []
    requires lists[shift][0] == page && !KindOf(g, shift).SMALL? && i < Count(g, shift) && page < |d| &&
      d[page].slab.Bits?
    requires
      var from := if KindOf(g, shift).EXACT? then 0 else 32;
      from + i !in d[page].slab.b && (forall j: nat :: from <= j < from + i ==> j in d[page].slab.b) &&
      d1 == d[page := Page(Bits(d[page].slab.b + {from + i}), d[page].next, d[page].prev)]
    ensures TookBit(g, d, d1, mem, mem, sl, lists, page, shift, i)
    ensures Listed(d1, Head(g, shift), lists[shift], KindOf(g, shift)) && page < |d1| && d1[page].slab.Bits?
    ensures
      var from := if KindOf(g, shift).EXACT? then 0 else 32;
      LastTaken(g, sl, page, i) <==> forall j: nat :: from <= j < from + Count(g, shift) ==> j in d1[page].slab.b
  {
    var f := FrontNotFull(g, d, mem, bl, sl, lists, shift);
    hide ChunksOk;
    var from := if KindOf(g, shift).EXACT? then 0 else 32;
    forall j: nat | j < i ensures Marked(g, d, mem, page, shift, j) { assert from + j in d[page].slab.b; }
    LowestFree(g, d, mem, sl, page, i);
    assert BitWritten(g, d, d1, mem, mem, page, shift, i, true);
    FullMarked(g, d, d1, mem, mem, sl, page, i);
    ListedFrame(d, d1, Head(g, shift), lists[shift], KindOf(g, shift));
    hide SliceOk, SlotOk, Full;
    if forall j: nat {:trigger Marked(g, d1, mem, page, shift, j)} ::
      j < Count(g, shift) ==> Marked(g, d1, mem, page, shift, j) {
      forall j: nat | from <= j < from + Count(g, shift) ensures j in d1[page].slab.b {
        assert Marked(g, d1, mem, page, shift, j - from);
      }
    }
  }

  /** The bits from 32 on. */
  function MapBits(b: set<nat>): set<nat> {
    set j | j in b && 32 <= j
  }

  lemma {:induction false} MapFull(g: Geometry, d: seq<Page>, mem: Memory, page: nat, shift: nat, i: nat, b: set<nat>)
    requires page < |d| && shift < g.ps && FormOk(g, d, mem, page, shift) && KindOf(g, shift).BIG? &&
      i < Count(g, shift)
    requires b == d[page].slab.b + {32 + i}
    ensures MapBits(b) == Ones(32, Count(g, shift)) <==> forall j: nat :: 32 <= j < 32 + Count(g, shift) ==> j in b
  {
    var c := Count(g, shift);
    if MapBits(b) == Ones(32, c) {
      forall j: nat | 32 <= j < 32 + c ensures j in b { assert j in Ones(32, c); }
    }
    if forall j: nat :: 32 <= j < 32 + c ==> j in b {
      forall j ensures j in MapBits(b) <==> j in Ones(32, c) {}
    }
  }

  /** The words below `n` are all ones. */
  ghost predicate BusyBelow(mem: Memory, page: nat, n: nat) {
    forall w: nat {:trigger BusyWord(mem, page, w)} :: w < n ==> BusyWord(mem, page, w)
  }

  /** The words of the bitmap after the last one scanned are not all ones while the page has
      a free chunk. */
  lemma {:induction false} SmallNotFull(g: Geometry, d: seq<Page>, mem: Memory, bl: Blocks, sl: Slices, lists: Lists,
                                        shift: nat)
    requires GeometryOk(g) && ChunksOk(g, d, mem, bl, sl, lists) && ShiftOk(g, shift) && shift in lists &&
      lists[shift] != []
    requires KindOf(g, shift).SMALL?
    ensures
      var page, words := lists[shift][0], Words(g, shift);
      !BusyBelow(mem, page, words) &&
      (forall w: nat {:trigger WordOk(mem, page, w)} :: w < words ==> WordOk(mem, page, w))
    ensures Words(g, shift) == PageSize(g) / Pow2(shift) / 64
  {
    var page := lists[shift][0];
    var i := FrontNotFull(g, d, mem, bl, sl, lists, shift);
    CountFacts(g, shift);
    assert i / 64 < Words(g, shift);
    assert BusyBelow(mem, page, Words(g, shift)) ==> BusyWord(mem, page, i / 64);
  }

  /** Taking the chunk that a scan of the bitmap has found. */
  lemma {:induction false} BitmapTook(g: Geometry, d: seq<Page>, mem: Memory, mem2: Memory, bl: Blocks, sl: Slices,
                                      lists: Lists, page: nat, shift: nat, n: nat, m: nat)
    requires GeometryOk(g) && ChunksOk(g, d, mem, bl, sl, lists) && ShiftOk(g, shift) && shift in lists &&
      lists[shift] != []
    requires lists[shift][0] == page && KindOf(g, shift).SMALL? && n < Words(g, shift) && m < 64 && (page, n) in mem &&
      page < |d|
    requires BusyBelow(mem, page, n) && m !in mem[(page, n)] && (forall j: nat :: j < m ==> j in mem[(page, n)])
    requires mem2 == mem[(page, n) := mem[(page, n)] + {m}]
    ensures TookBit(g, d, d, mem, mem2, sl, lists, page, shift, 64 * n + m)
    ensures LastTaken(g, sl, page, 64 * n + m) <==>
      forall w: nat {:trigger BusyWord(mem2, page, w)} :: n <= w < Words(g, shift) ==> BusyWord(mem2, page, w)
  {
    var f := FrontNotFull(g, d, mem, bl, sl, lists, shift);
    hide ChunksOk, SlotOk;
    BitmapBit(g, d, mem, mem2, sl, page, shift, n, m);
    BitmapLast(g, d, mem, mem2, sl, page, shift, n, m);
  }

  /** The bit found is that of the lowest free chunk. */
  lemma {:induction false} BitmapBit(g: Geometry, d: seq<Page>, mem: Memory, mem2: Memory, sl: Slices, page: nat,
                                     shift: nat, n: nat, m: nat)
    requires GeometryOk(g) && page in sl && sl[page].shift == shift && SliceOk(g, d, mem, sl, page) && page < |d|
    requires KindOf(g, shift).SMALL? && n < Words(g, shift) && m < 64 && (page, n) in mem
    requires BusyBelow(mem, page, n) && m !in mem[(page, n)] && (forall j: nat :: j < m ==> j in mem[(page, n)])
    requires mem2 == mem[(page, n) := mem[(page, n)] + {m}]
    ensures InRange(g, shift, 64 * n + m) && 64 * n + m !in sl[page].used
    ensures forall j :: Reserved(g, shift) <= j < 64 * n + m ==> j in sl[page].used
    ensures BitWritten(g, d, d, mem, mem2, page, shift, 64 * n + m, true)
  {
    CountFacts(g, shift);
    ScanMarked(g, d, mem, page, shift, n, m);
    assert (64 * n + m) / 64 == n && (64 * n + m) % 64 == m;
    hide Marked, FormOk;
    LowestFree(g, d, mem, sl, page, 64 * n + m);
  }

  /** The page becomes full if and only if all words from that one on are busy then. */
  lemma {:induction false} BitmapLast(g: Geometry, d: seq<Page>, mem: Memory, mem2: Memory, sl: Slices, page: nat,
                                      shift: nat, n: nat, m: nat)
    requires GeometryOk(g) && page in sl && sl[page].shift == shift && SliceOk(g, d, mem, sl, page) && page < |d|
    requires KindOf(g, shift).SMALL? && n < Words(g, shift) && m < 64 && (page, n) in mem && BusyBelow(mem, page, n)
    requires mem2 == mem[(page, n) := mem[(page, n)] + {m}] && InRange(g, shift, 64 * n + m)
    requires BitWritten(g, d, d, mem, mem2, page, shift, 64 * n + m, true)
    ensures LastTaken(g, sl, page, 64 * n + m) <==>
      forall w: nat {:trigger BusyWord(mem2, page, w)} :: n <= w < Words(g, shift) ==> BusyWord(mem2, page, w)
  {
    CountFacts(g, shift);
    assert FormOk(g, d, mem, page, shift) && BitmapOk(mem, page, Words(g, shift));
    FullMarked(g, d, d, mem, mem2, sl, page, 64 * n + m);
    hide SliceOk, Full, Marked, BusyWord, FormOk, BitWritten, InRange;
    BitmapFull(g, d, mem, mem2, page, shift, n, m);
  }

  lemma {:induction false} ScanMarked(g: Geometry, d: seq<Page>, mem: Memory, page: nat, shift: nat, n: nat, m: nat)
    requires KindOf(g, shift).SMALL? && m < 64 && (page, n) in mem && page < |d| && BusyBelow(mem, page, n)
    requires m !in mem[(page, n)] && (forall j: nat :: j < m ==> j in mem[(page, n)])
    ensures !Marked(g, d, mem, page, shift, 64 * n + m)
    ensures forall j: nat {:trigger Marked(g, d, mem, page, shift, j)} ::
      j < 64 * n + m ==> Marked(g, d, mem, page, shift, j)
  {
    forall j: nat | j < 64 * n + m ensures Marked(g, d, mem, page, shift, j) {
      assert j / 64 < n ==> BusyWord(mem, page, j / 64);
    }
  }

  lemma {:induction false} BitmapFull(g: Geometry, d: seq<Page>, mem: Memory, mem2: Memory, page: nat, shift: nat,
                                      n: nat, m: nat)
    requires KindOf(g, shift).SMALL? && shift < g.ps && n < Words(g, shift) && m < 64 && (page, n) in mem && page < |d|
    requires Count(g, shift) == 64 * Words(g, shift)
    requires forall w: nat {:trigger WordOk(mem, page, w)} :: w < Words(g, shift) ==> WordOk(mem, page, w)
    requires BusyBelow(mem, page, n) && mem2 == mem[(page, n) := mem[(page, n)] + {m}]
    ensures (forall j: nat {:trigger Marked(g, d, mem2, page, shift, j)} ::
      j < Count(g, shift) ==> Marked(g, d, mem2, page, shift, j)) <==>
      forall w: nat {:trigger BusyWord(mem2, page, w)} :: n <= w < Words(g, shift) ==> BusyWord(mem2, page, w)
  {
    var words := Words(g, shift);
    forall w: nat | w < words ensures WordOk(mem2, page, w) { assert WordOk(mem, page, w); }
    BusyWords(mem2, page, 0, words);
    forall j: nat ensures Marked(g, d, mem2, page, shift, j) <==> Bit(mem2, page, j) {}
    forall w: nat | w < n ensures BusyWord(mem2, page, w) { assert BusyWord(mem, page, w); }
    hide Bit, BusyWord;
    if forall j: nat {:trigger Marked(g, d, mem2, page, shift, j)} ::
      j < Count(g, shift) ==> Marked(g, d, mem2, page, shift, j) {
      forall j: nat | j < 64 * words ensures Bit(mem2, page, j) { assert Marked(g, d, mem2, page, shift, j); }
    }
  }

  // ---------- the first chunk of a new page ----------

  /** Word `w` of a bitmap in which the chunks up to `n` are marked. */
  function InitWord(n: nat, w: nat): set<nat> {
    Ones(0, if 64 * w + 64 <= n + 1 then 64 else if n + 1 <= 64 * w then 0 else n + 1 - 64 * w)
  }

  ghost predicate InitedTo(mem: Memory, page: nat, n: nat, w: nat) {
    forall v: nat {:trigger (page, v) in mem} :: v < w ==> (page, v) in mem && mem[(page, v)] == InitWord(n, v)
  }

  /** The bitmap is written up to word `i`. */
  ghost predicate Writing(mem: Memory, mem2: Memory, page: nat, words: nat, n: nat, i: nat) {
    mem2.Keys == mem.Keys && BitmapOnly(mem, mem2, page, words) && InitedTo(mem2, page, n, i) &&
    forall w: nat {:trigger (page, w) in mem} :: w < words ==> (page, w) in mem
  }

  lemma {:induction false} WritingStep(mem: Memory, mem2: Memory, page: nat, words: nat, n: nat, i: nat)
    requires Writing(mem, mem2, page, words, n, i) && i < words
    ensures Writing(mem, mem2[(page, i) := InitWord(n, i)], page, words, n, i + 1)
  {
    hide InitWord;
    assert (page, i) in mem;
    assert (page, i) in mem2.Keys;
    var mem3 := mem2[(page, i) := InitWord(n, i)];
    assert mem3.Keys == mem2.Keys;
    forall v: nat | v < i + 1 ensures (page, v) in mem3 && mem3[(page, v)] == InitWord(n, v) {
      if v < i { assert (page, v) in mem2; }
    }
    forall z, k: nat | (z, k) in mem && (z != page || words <= k) ensures (z, k) in mem3 &&
      mem3[(z, k)] == mem[(z, k)] {}
  }

  lemma {:induction false} WritingDone(mem: Memory, mem2: Memory, page: nat, words: nat, n: nat)
    requires Writing(mem, mem2, page, words, n, words)
    ensures mem2.Keys == mem.Keys && BitmapOnly(mem, mem2, page, words) && InitedTo(mem2, page, n, words)
  {
  }

  lemma {:induction false} NewBitmap(g: Geometry, e: seq<Page>, mem: Memory, mem2: Memory, page: nat, shift: nat)
    requires GeometryOk(g) && ShiftOk(g, shift) && KindOf(g, shift).SMALL? && page < |e| && e[page].slab == Num(shift)
    requires MemOk(g, mem) && mem2.Keys == mem.Keys && BitmapOnly(mem, mem2, page, Words(g, shift))
    requires InitedTo(mem2, page, Reserved(g, shift), Words(g, shift))
    ensures FirstTaken(g, e, mem, mem2, page, shift)
  {
    CountFacts(g, shift);
    var n, words := Reserved(g, shift), Words(g, shift);
    forall w: nat | w < words ensures WordOk(mem2, page, w) { assert (page, w) in mem2; }
    forall j: nat | j < Count(g, shift) ensures Marked(g, e, mem2, page, shift, j) <==> j <= n {
      assert (page, j / 64) in mem2 && mem2[(page, j / 64)] == InitWord(n, j / 64);
    }
    forall z | z != page ensures SameWords(mem, mem2, z) {
      forall k: nat ensures (z, k) in mem <==> (z, k) in mem2 { assert (z, k) in mem.Keys <==> (z, k) in mem2.Keys; }
    }
    forall z, k ensures (z, k) in mem2 <==> g.lo <= z < g.hi && 0 <= k < PageSize(g) / 8 {
      assert (z, k) in mem.Keys <==> (z, k) in mem2.Keys;
    }
  }

  lemma {:induction false} NewWord(g: Geometry, e: seq<Page>, mem: Memory, page: nat, shift: nat)
    requires GeometryOk(g) && ShiftOk(g, shift) && !KindOf(g, shift).SMALL? && page < |e| && MemOk(g, mem)
    requires e[page].slab == Bits(if KindOf(g, shift).EXACT? then {0} else {32} + BitsOf(shift))
    ensures FirstTaken(g, e, mem, mem, page, shift)
  {
    CountFacts(g, shift);
    if KindOf(g, shift).BIG? {
      LowBitsOf(shift, {32});
      assert {32} + BitsOf(shift) == BitsOf(shift) + {32};
    }
    forall j: nat | j < Count(g, shift) ensures Marked(g, e, mem, page, shift, j) <==> j <= Reserved(g, shift) {}
  }

  // ---------- the tests of a free ----------

  /** A page of chunks is out of its list, with next 0, if and only if it is full. */
  lemma {:induction false} FullTest(g: Geometry, d: seq<Page>, mem: Memory, bl: Blocks, sl: Slices, lists: Lists,
                                    page: nat)
    requires GeometryOk(g) && ChunksOk(g, d, mem, bl, sl, lists) && page in sl
    ensures SliceOk(g, d, mem, sl, page) && page < |d| && (d[page].next == 0 <==> Full(g, sl[page]))
    ensures sl[page].shift in lists &&
      Listed(d, Head(g, sl[page].shift), lists[sl[page].shift], KindOf(g, sl[page].shift))
    ensures !Full(g, sl[page]) <==> page in lists[sl[page].shift]
  {
    var shift := sl[page].shift;
    assert SliceOk(g, d, mem, sl, page);
    assert SlotOk(g, d, sl, lists, shift);
    assert page in lists[shift] <==> InSlotOf(g, sl, page, shift);
    if !Full(g, sl[page]) { ListedMember(d, Head(g, shift), lists[shift], KindOf(g, shift), page); }
  }

  /** For a word of 64 chunks: all ones, and all zeros. */
  lemma {:induction false} ExactTests(g: Geometry, d: seq<Page>, mem: Memory, sl: Slices, page: nat)
    requires GeometryOk(g) && page in sl && SliceOk(g, d, mem, sl, page) && KindOf(g, sl[page].shift).EXACT? &&
      page < |d|
    ensures d[page].slab.Bits? && (d[page].slab.b == Ones(0, 64) <==> Full(g, sl[page])) &&
      d[page].slab.b == sl[page].used
  {
    var s := sl[page];
    CountFacts(g, s.shift);
    forall j: nat ensures j in d[page].slab.b <==> j in s.used {
      assert j < 64 ==> (Marked(g, d, mem, page, s.shift, j) <==> j in s.used);
      assert j in s.used ==> InRange(g, s.shift, j);
    }
    assert Full(g, s) ==> forall j: nat :: j in Ones(0, 64) ==> j in s.used;
    assert Full(g, s) ==> d[page].slab.b == Ones(0, 64);
  }

  /** For a larger size: no bit of the map is set if and only if no chunk is in use. */
  lemma {:induction false} BigTest(g: Geometry, d: seq<Page>, mem: Memory, sl: Slices, page: nat)
    requires GeometryOk(g) && page in sl && SliceOk(g, d, mem, sl, page) && KindOf(g, sl[page].shift).BIG? && page < |d|
    ensures d[page].slab.Bits? && (MapBits(d[page].slab.b) == {} <==> sl[page].used == {}) &&
      LowBits(d[page].slab.b) == sl[page].shift
  {
    var s, b := sl[page], d[page].slab.b;
    forall j: nat | j in s.used ensures j + 32 in MapBits(b) {
      assert InRange(g, s.shift, j);
      assert Marked(g, d, mem, page, s.shift, j);
    }
    forall j: nat | j in MapBits(b) ensures j - 32 in s.used {
      assert Marked(g, d, mem, page, s.shift, j - 32);
    }
    if s.used != {} {
      var j :| j in s.used;
      assert j + 32 in MapBits(b);
    }
    if MapBits(b) != {} {
      var j :| j in MapBits(b);
      assert j - 32 in s.used;
    }
  }

  /** No bit of the word is set but those of the chunks below `n`. */
  ghost predicate BareWord(mem: Memory, page: nat, n: nat, w: nat) {
    (page, w) in mem && forall j :: j in mem[(page, w)] ==> 64 * w + j < n
  }

  /** For a smaller size: the same, by the words from the first that has a chunk on. */
  lemma {:induction false} SmallTest(g: Geometry, d: seq<Page>, mem: Memory, sl: Slices, page: nat)
    requires GeometryOk(g) && page in sl && SliceOk(g, d, mem, sl, page) && KindOf(g, sl[page].shift).SMALL?
    ensures
      var shift := sl[page].shift;
      var r, words := Reserved(g, shift), Words(g, shift);
      (sl[page].used == {} <==> forall w: nat {:trigger BareWord(mem, page, r, w)} ::
        r / 64 <= w < words ==> BareWord(mem, page, r, w)) &&
      r / 64 < words && BitmapOk(mem, page, words)
  {
    var s := sl[page];
    var r, words := Reserved(g, s.shift), Words(g, s.shift);
    CountFacts(g, s.shift);
    ReservedFacts(g, s.shift);
    forall j: nat | j in s.used ensures r / 64 <= j / 64 < words && !BareWord(mem, page, r, j / 64) {
      assert InRange(g, s.shift, j);
      assert Marked(g, d, mem, page, s.shift, j);
    }
    forall w: nat, j: nat | w < words && WordOk(mem, page, w) && j in mem[(page, w)]
      ensures 64 * w + j < r || 64 * w + j in s.used
    {
      assert (64 * w + j) / 64 == w && (64 * w + j) % 64 == j;
      assert Marked(g, d, mem, page, s.shift, 64 * w + j);
    }
    forall w: nat | w < words && s.used == {} ensures BareWord(mem, page, r, w) { assert WordOk(mem, page, w); }
    if s.used != {} {
      var j: nat :| j in s.used;
      assert !BareWord(mem, page, r, j / 64);
    }
  }

  lemma {:induction false} BareTest(mem: Memory, page: nat, n: nat, w: nat)
    requires WordOk(mem, page, w)
    ensures w == n / 64 ==> (BareWord(mem, page, n, w) <==> mem[(page, w)] - Ones(0, n % 64) == {})
    ensures n / 64 < w ==> (BareWord(mem, page, n, w) <==> mem[(page, w)] == {})
  {
    var b, low := mem[(page, w)], Ones(0, n % 64);
    if w == n / 64 {
      forall j: nat ensures j in b - low <==> j in b && n <= 64 * w + j {}
      if b - low == {} {
        forall j | j in b ensures 64 * w + j < n { assert j !in b - low; }
      }
    }
    if n / 64 < w && BareWord(mem, page, n, w) {
      forall j ensures j !in b { assert j in b ==> 64 * w + j < n; }
    }
  }

  /** No page is kept for chunks when none of its chunks is in use. */
  ghost predicate NoneEmpty(sl: Slices) {
    forall x :: x in sl ==> sl[x].used != {}
  }

  lemma {:induction false} LastChunk(sl: Slices, page: nat, i: nat)
    requires page in sl && i in sl[page].used && NoneEmpty(sl)
    ensures
      var sl2 := Used(sl, page, i, false);
      page in sl2 && sl2[page].shift == sl[page].shift && (sl2[page].used == {} <==> sl[page].used == {i}) &&
      (if sl[page].used == {i}
       then sl2[page] == Slice(sl[page].shift, {}) && NoneEmpty(sl2 - {page})
       else NoneEmpty(sl2))
  {
    assert sl[page].used == sl[page].used - {i} + {i};
  }

  lemma {:induction false} Removed(sl: Slices, page: nat, i: nat)
    requires page in sl
    ensures Used(sl, page, i, false) - {page} == sl - {page}
  {
  }

  /** Empty lists for the sizes `from` to `to`. */
  ghost function NoLists(from: nat, to: nat): (l: Lists)
    ensures forall s: nat :: s in l <==> from <= s < to
    ensures forall s: nat :: s in l ==> l[s] == []
  {
    if to <= from then map[] else NoLists(from, to - 1)[to - 1 := []]
  }
}
