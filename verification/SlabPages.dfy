/** How the descriptors record the blocks of pages: boundary tags and the free list. */
module SlabPages {
  import opened Seqs
  import opened SlabList
  import opened SlabBlocks

  /** A free page that is not the first of its block. */
  ghost predicate Cleared(d: seq<Page>, i: nat) {
    i < |d| && d[i].slab == Num(0) && d[i].next == 0 && d[i].prev.kind.PAGE?
  }

  const CLEARED_PAGE: Page := Page(Num(0), 0, Tagged(0, PAGE))

  const BUSY_PAGE: Page := Page(Num(BUSY), 0, Tagged(0, PAGE))

  ghost predicate Busy(d: seq<Page>, i: nat) {
    i < |d| && d[i] == BUSY_PAGE
  }

  function LargePage(len: nat): Page {
    Page(Num(START + len), 0, Tagged(0, PAGE))
  }

  /** A free block: its length at the head, cleared pages, and on the last page a tag that
      leads back to the head. The tag is there when a page follows in the pool; the block
      that mps_slab_init makes has none. */
  ghost predicate FreeOk(d: seq<Page>, s: nat, len: nat, hi: nat) {
    s < |d| && d[s].slab == Num(len) && d[s].prev.kind.PAGE? &&
    (forall i {:trigger Cleared(d, i)} :: s < i < s + len ==> Cleared(d, i)) &&
    (1 < len && s + len < hi ==> s + len <= |d| && d[s + len - 1].prev == Tagged(s, PAGE))
  }

  ghost predicate LargeOk(d: seq<Page>, s: nat, len: nat) {
    s < |d| && d[s] == LargePage(len) && forall i {:trigger Busy(d, i)} :: s < i < s + len ==> Busy(d, i)
  }

  /** The descriptors say what the block is. */
  ghost predicate BlockOk(d: seq<Page>, bl: Blocks, hi: nat, s: nat)
    requires s in bl
  {
    match bl[s].use
    case Free => FreeOk(d, s, bl[s].len, hi)
    case Large => LargeOk(d, s, bl[s].len)
    case Chunks(kind) => s < |d| && d[s].prev.kind == kind
  }

  ghost predicate BlocksOk(d: seq<Page>, bl: Blocks, hi: nat) {
    forall s {:trigger BlockOk(d, bl, hi, s)} :: s in bl ==> BlockOk(d, bl, hi, s)
  }

  /** The free list holds exactly the free blocks. */
  ghost predicate ListsFree(bl: Blocks, free: seq<nat>) {
    forall x: nat {:trigger x in free} {:trigger IsFree(bl, x)} :: x in free <==> IsFree(bl, x)
  }

  /** Everything the page allocator relies on. */
  ghost predicate PagesOk(d: seq<Page>, bl: Blocks, free: seq<nat>, lo: nat, hi: nat) {
    FREE_HEAD < lo <= hi <= |d| && hi < START && Tiled(bl, lo, hi) && BlocksOk(d, bl, hi) &&
    Listed(d, FREE_HEAD, free, PAGE) && ListsFree(bl, free)
  }

  /** Only the links may differ. */
  ghost predicate SameTag(d: seq<Page>, e: seq<Page>, z: nat) {
    z < |d| && z < |e| && e[z].slab == d[z].slab && e[z].prev.kind == d[z].prev.kind
  }

  lemma {:induction false} BlockOkFrame(d: seq<Page>, e: seq<Page>, bl: Blocks, cl: Blocks, hi: nat, t: nat)
    requires t in bl && t in cl && cl[t] == bl[t] && BlockOk(d, bl, hi, t) && |e| == |d| && End(bl, t) <= |d|
    requires if IsFree(bl, t) then SameTag(d, e, t) else t < |d| && e[t] == d[t]
    requires forall i {:trigger e[i]} :: t < i < End(bl, t) ==> e[i] == d[i]
    ensures BlockOk(e, cl, hi, t)
  {
    if IsFree(bl, t) {
      forall i | t < i < End(bl, t) ensures Cleared(e, i) { assert Cleared(d, i) && e[i] == d[i]; }
    } else if bl[t].use.Large? {
      forall i | t < i < End(bl, t) ensures Busy(e, i) { assert Busy(d, i) && e[i] == d[i]; }
    }
  }

  /** The neighbours of a member of the free list are heads of other free blocks, or the
      list head; no page of a block that is not free is among them. */
  lemma {:induction false} NeighbourIsHead(d: seq<Page>, bl: Blocks, free: seq<nat>, lo: nat, hi: nat, i: int)
    requires PagesOk(d, bl, free, lo, hi) && -1 <= i <= |free|
    ensures
      var a := Nth(FREE_HEAD, free, i);
      0 < a < |d| && (a == FREE_HEAD || IsFree(bl, a)) &&
      forall t {:trigger Placed(bl, lo, hi, t)} :: t in bl && t <= a < End(bl, t) ==> a == t && IsFree(bl, t)
  {
    var a := Nth(FREE_HEAD, free, i);
    if 0 <= i < |free| {
      assert free[i] in free;
      ListedNear(d, FREE_HEAD, free, PAGE, i);
    }
    forall t | t in bl ensures t <= a < End(bl, t) ==> a == t && IsFree(bl, t) {
      assert Placed(bl, lo, hi, t);
      if IsFree(bl, a) { assert Apart(bl, t, a); }
    }
  }

  // ---------- taking pages ----------

  /** The descriptors after `pages` pages of the block `x` at position `k` of the free list
      are split off its front, and before they are marked. */
  ghost predicate Carved(d: seq<Page>, e: seq<Page>, free: seq<nat>, k: nat, len: nat, pages: nat)
    requires k < |free|
  {
    var x, y, a, b := free[k], free[k] + pages, Nth(FREE_HEAD, free, k - 1), Nth(FREE_HEAD, free, k + 1);
    |e| == |d| && x + len <= |d| && a < |d| && b < |d| && pages < len &&
    e[y] == Page(Num(len - pages), b, Tagged(a, PAGE)) && e[a].next == y && e[b].prev == Tagged(y, PAGE) &&
    (a != b ==> e[a].prev == d[a].prev && e[b].next == d[b].next) &&
    (forall i {:trigger e[i]} :: y < i < x + len - 1 ==> e[i] == d[i]) &&
    (y < x + len - 1 ==> e[x + len - 1] == d[x + len - 1].(prev := Tagged(y, PAGE))) &&
    e[a].slab == d[a].slab && e[b].slab == d[b].slab &&
    forall z {:trigger e[z]} :: 0 <= z < |d| && !(x <= z < x + len) && z != a && z != b ==> e[z] == d[z]
  }

  /** The pages `x` to `x + pages` are marked as one allocation. */
  ghost predicate Allotted(d: seq<Page>, e: seq<Page>, x: nat, pages: nat) {
    |e| == |d| && LargeOk(e, x, pages) && x + pages <= |d| &&
    forall z {:trigger e[z]} :: 0 <= z < |d| && !(x <= z < x + pages) ==> e[z] == d[z]
  }

  /** What is read at a block of the free list, and where its neighbours are not. */
  lemma {:induction false} FreeReads(d: seq<Page>, bl: Blocks, free: seq<nat>, lo: nat, hi: nat, k: nat)
    requires PagesOk(d, bl, free, lo, hi) && k < |free|
    ensures
      var x, a, b := free[k], Nth(FREE_HEAD, free, k - 1), Nth(FREE_HEAD, free, k + 1);
      IsFree(bl, x) && lo <= x && 0 < bl[x].len && x + bl[x].len <= hi &&
      d[x] == Page(Num(bl[x].len), b, Tagged(a, PAGE)) &&
      0 < a < |d| && 0 < b < |d| && !(x <= a < x + bl[x].len) && !(x <= b < x + bl[x].len) &&
      (x + bl[x].len <= |d|)
  {
    var x := free[k];
    assert x in free;
    assert Placed(bl, lo, hi, x) && BlockOk(d, bl, hi, x);
    ListedNear(d, FREE_HEAD, free, PAGE, k);
    NeighbourIsHead(d, bl, free, lo, hi, k - 1);
    NeighbourIsHead(d, bl, free, lo, hi, k + 1);
  }

  lemma {:induction false} CarvedListed(d: seq<Page>, e: seq<Page>, bl: Blocks, free: seq<nat>, lo: nat, hi: nat,
                                        k: nat, pages: nat)
    requires PagesOk(d, bl, free, lo, hi) && k < |free| && IsFree(bl, free[k]) && 0 < pages < bl[free[k]].len
    requires Carved(d, e, free, k, bl[free[k]].len, pages)
    ensures Listed(e, FREE_HEAD, free[k := free[k] + pages], PAGE)
    ensures ListsFree(Taken(bl, free[k], pages, Large), free[k := free[k] + pages])
  {
    var x, y := free[k], free[k] + pages;
    assert Placed(bl, lo, hi, x);
    assert y in bl ==> Apart(bl, x, y);
    assert y in free <==> IsFree(bl, y);
    assert Replaced(d, e, FREE_HEAD, free, PAGE, k, y) by {
      forall z | z in free && z != x ensures !(x <= z < End(bl, x)) {
        assert IsFree(bl, z) && Apart(bl, x, z) && Apart(bl, z, x) && Placed(bl, lo, hi, z);
      }
    }
    ReplacedListed(d, e, FREE_HEAD, free, PAGE, k, y);
    var nf, nb := free[k := y], Taken(bl, x, pages, Large);
    forall z: nat ensures z in nf <==> IsFree(nb, z) {
      assert z in free <==> IsFree(bl, z);
      ReplacedIn(free, k, y, z);
    }
  }

  lemma {:induction false} ReplacedIn(s: seq<nat>, k: nat, y: nat, z: nat)
    requires k < |s| && NoDup(s)
    ensures z in s[k := y] <==> z == y || (z in s && z != s[k])
  {
    if z in s && z != s[k] {
      var j :| 0 <= j < |s| && s[j] == z;
      assert s[k := y][j] == z;
    }
    assert s[k := y][k] == y;
  }

  lemma {:induction false} CarvedBlock(d: seq<Page>, e: seq<Page>, bl: Blocks, free: seq<nat>, lo: nat, hi: nat, k: nat,
                                       pages: nat)
    requires PagesOk(d, bl, free, lo, hi) && k < |free| && IsFree(bl, free[k]) && 0 < pages < bl[free[k]].len
    requires Carved(d, e, free, k, bl[free[k]].len, pages)
    ensures FreeOk(e, free[k] + pages, bl[free[k]].len - pages, hi)
  {
    var x, y, len := free[k], free[k] + pages, bl[free[k]].len;
    assert BlockOk(d, bl, hi, x) && Placed(bl, lo, hi, x);
    NeighbourIsHead(d, bl, free, lo, hi, k - 1);
    NeighbourIsHead(d, bl, free, lo, hi, k + 1);
    assert Within(bl, x, x) && Placed(bl, lo, hi, x);
    forall i | y < i < y + (len - pages) ensures Cleared(e, i) { assert Cleared(d, i); }
  }

  /** Another block is not touched when the front of `free[k]` is taken. */
  lemma {:induction false} CarvedOther(d: seq<Page>, e: seq<Page>, bl: Blocks, free: seq<nat>, lo: nat, hi: nat, k: nat,
                                       pages: nat, t: nat)
    requires PagesOk(d, bl, free, lo, hi) && k < |free| && IsFree(bl, free[k]) && 0 < pages < bl[free[k]].len
    requires Carved(d, e, free, k, bl[free[k]].len, pages) && t in bl && t != free[k]
    ensures BlockOk(e, bl, hi, t) && lo <= t && End(bl, t) <= hi
    ensures End(bl, t) <= free[k] || End(bl, free[k]) <= t
  {
    var x := free[k];
    NeighbourIsHead(d, bl, free, lo, hi, k - 1);
    NeighbourIsHead(d, bl, free, lo, hi, k + 1);
    assert Apart(bl, x, t) && Apart(bl, t, x) && Placed(bl, lo, hi, t) && BlockOk(d, bl, hi, t);
    FreeReads(d, bl, free, lo, hi, k);
    BlockOkFrame(d, e, bl, bl, hi, t);
  }

  /** After the front of a free block is taken and marked, every block is recorded. */
  lemma {:induction false} TakenPages(d: seq<Page>, e: seq<Page>, f: seq<Page>, bl: Blocks, free: seq<nat>, lo: nat,
                                      hi: nat, k: nat, pages: nat)
    requires PagesOk(d, bl, free, lo, hi) && k < |free| && IsFree(bl, free[k]) && 0 < pages < bl[free[k]].len
    requires Carved(d, e, free, k, bl[free[k]].len, pages) && Allotted(e, f, free[k], pages)
    ensures PagesOk(f, Taken(bl, free[k], pages, Large), free[k := free[k] + pages], lo, hi)
  {
    var x, y, nb, nf := free[k], free[k] + pages, Taken(bl, free[k], pages, Large), free[k := free[k] + pages];
    assert Placed(bl, lo, hi, x);
    TakenTiled(bl, lo, hi, x, pages, Large);
    CarvedListed(d, e, bl, free, lo, hi, k, pages);
    CarvedBlock(d, e, bl, free, lo, hi, k, pages);
    hide Carved;
    assert Listed(f, FREE_HEAD, nf, PAGE) by {
      forall z: nat | z < |f| && z in nf ensures f[z] == e[z] {
        assert IsFree(nb, z);
        if z in bl { assert Apart(bl, x, z) && Apart(bl, z, x); }
      }
      ListedFrame(e, f, FREE_HEAD, nf, PAGE);
    }
    forall t | t in nb ensures BlockOk(f, nb, hi, t) {
      if t == y {
        forall i | y < i < End(nb, y) ensures Cleared(f, i) { assert Cleared(e, i); }
      } else if t != x {
        CarvedOther(d, e, bl, free, lo, hi, k, pages, t);
        BlockOkFrame(e, f, bl, nb, hi, t);
      }
    }
  }

  /** Taking pages writes descriptors of free pages and the list head only. */
  ghost predicate KeepsUsed(d: seq<Page>, e: seq<Page>, bl: Blocks) {
    |e| == |d| && forall z {:trigger e[z]} :: 0 <= z < |d| && z != FREE_HEAD && !FreePage(bl, z) ==> e[z] == d[z]
  }

  lemma {:induction false} TakenKeeps(d: seq<Page>, e: seq<Page>, f: seq<Page>, bl: Blocks, free: seq<nat>, lo: nat,
                                      hi: nat, k: nat, pages: nat)
    requires PagesOk(d, bl, free, lo, hi) && k < |free| && IsFree(bl, free[k]) && 0 < pages <= bl[free[k]].len
    requires Nth(FREE_HEAD, free, k - 1) < |d| && Nth(FREE_HEAD, free, k + 1) < |d|
    requires if pages < bl[free[k]].len then Carved(d, e, free, k, bl[free[k]].len, pages)
      else Unlinked(d, e, Nth(FREE_HEAD, free, k - 1), Nth(FREE_HEAD, free, k + 1), PAGE)
    requires Allotted(e, f, free[k], pages)
    ensures KeepsUsed(d, f, bl)
  {
    var x, a, b := free[k], Nth(FREE_HEAD, free, k - 1), Nth(FREE_HEAD, free, k + 1);
    NeighbourIsHead(d, bl, free, lo, hi, k - 1);
    NeighbourIsHead(d, bl, free, lo, hi, k + 1);
    forall i | x <= i < x + bl[x].len ensures FreePage(bl, i) { assert Within(bl, x, i); }
    assert a != FREE_HEAD ==> Placed(bl, lo, hi, a) && Within(bl, a, a);
    assert b != FREE_HEAD ==> Placed(bl, lo, hi, b) && Within(bl, b, b);
  }

  /** After a whole free block is taken and marked, every block is recorded. */
  lemma {:induction false} TakenWhole(d: seq<Page>, e: seq<Page>, f: seq<Page>, bl: Blocks, free: seq<nat>, lo: nat,
                                      hi: nat, k: nat)
    requires PagesOk(d, bl, free, lo, hi) && k < |free| && IsFree(bl, free[k])
    requires Nth(FREE_HEAD, free, k - 1) < |d| && Nth(FREE_HEAD, free, k + 1) < |d|
    requires Unlinked(d, e, Nth(FREE_HEAD, free, k - 1), Nth(FREE_HEAD, free, k + 1), PAGE)
    requires 0 < bl[free[k]].len && Allotted(e, f, free[k], bl[free[k]].len)
    ensures PagesOk(f, Taken(bl, free[k], bl[free[k]].len, Large), Dropped(free, k), lo, hi)
  {
    var x, nb, nf := free[k], Taken(bl, free[k], bl[free[k]].len, Large), Dropped(free, k);
    assert Placed(bl, lo, hi, x);
    TakenTiled(bl, lo, hi, x, bl[x].len, Large);
    UnlinkedListed(d, e, FREE_HEAD, free, PAGE, k);
    DroppedIn(free, k);
    NeighbourIsHead(d, bl, free, lo, hi, k - 1);
    NeighbourIsHead(d, bl, free, lo, hi, k + 1);
    assert ListsFree(nb, nf) by {
      forall z: nat ensures z in nf <==> IsFree(nb, z) { assert z in free <==> IsFree(bl, z); }
    }
    assert Listed(f, FREE_HEAD, nf, PAGE) by {
      forall z: nat | z < |f| && z in nf ensures f[z] == e[z] {
        assert IsFree(bl, z) && Apart(bl, x, z) && Apart(bl, z, x) && Placed(bl, lo, hi, z);
      }
      ListedFrame(e, f, FREE_HEAD, nf, PAGE);
    }
    forall t | t in nb ensures BlockOk(f, nb, hi, t) {
      if t != x {
        assert Apart(bl, x, t) && Apart(bl, t, x) && Placed(bl, lo, hi, t) && BlockOk(d, bl, hi, t);
        assert forall i :: t <= i < End(bl, t) ==> f[i] == e[i];
        BlockOkFrame(d, f, bl, nb, hi, t);
      }
    }
  }

  // ---------- giving pages back ----------

  /** The block `s` is on its way to the free list: everything but `s` is recorded and
      listed, `s` itself is a run of cleared pages with its length at the head. */
  ghost predicate Loose(d: seq<Page>, bl: Blocks, free: seq<nat>, lo: nat, hi: nat, s: nat) {
    FREE_HEAD < lo <= hi <= |d| && hi < START && Covered(bl, lo, hi) && IsFree(bl, s) &&
    (forall t {:trigger BlockOk(d, bl, hi, t)} :: t in bl && t != s ==> BlockOk(d, bl, hi, t)) &&
    Listed(d, FREE_HEAD, free, PAGE) &&
    (forall x: nat {:trigger x in free} {:trigger IsFree(bl, x)} :: x in free <==> IsFree(bl, x) && x != s) &&
    s < |d| && d[s].slab == Num(bl[s].len) &&
    forall i {:trigger Cleared(d, i)} :: s < i < End(bl, s) ==> Cleared(d, i)
  }

  /** The descriptors after the pages of a block are cleared and, for a page of chunks,
      its neighbours `a` and `b` in the slot list are joined. */
  ghost predicate Wiped(d: seq<Page>, e: seq<Page>, bl: Blocks, s: nat, len: nat) {
    |e| == |d| && s + len <= |d| && 0 < len && e[s].slab == Num(len) &&
    (forall i {:trigger Cleared(e, i)} :: s < i < s + len ==> Cleared(e, i)) &&
    forall z: nat {:trigger e[z]} :: z < |d| && !(s <= z < s + len) ==>
      e[z] == d[z] || (z != FREE_HEAD && (z in bl ==> e[z].prev.kind == d[z].prev.kind && bl[z].use.Chunks?))
  }

  lemma {:induction false} WipedLoose(d: seq<Page>, e: seq<Page>, bl: Blocks, free: seq<nat>, lo: nat, hi: nat, s: nat)
    requires PagesOk(d, bl, free, lo, hi) && s in bl && !IsFree(bl, s) && Wiped(d, e, bl, s, bl[s].len)
    requires forall z: nat {:trigger e[z]} :: lo <= z < hi && z !in bl && !(s <= z < End(bl, s)) ==> e[z] == d[z]
    ensures Loose(e, FreedAlone(bl, s), free, lo, hi, s)
  {
    var nb := FreedAlone(bl, s);
    assert Placed(bl, lo, hi, s);
    assert Covered(nb, lo, hi) by {
      forall t | t in nb ensures Placed(nb, lo, hi, t) { assert Placed(bl, lo, hi, t); }
      forall t, u | t in nb && u in nb ensures Apart(nb, t, u) { assert Apart(bl, t, u); }
    }
    assert Listed(e, FREE_HEAD, free, PAGE) by {
      forall z: nat | z < |e| && z in free ensures e[z] == d[z] {
        assert IsFree(bl, z) && Apart(bl, s, z) && Apart(bl, z, s) && Placed(bl, lo, hi, z);
      }
      ListedFrame(d, e, FREE_HEAD, free, PAGE);
    }
    forall x: nat ensures x in free <==> IsFree(nb, x) && x != s { assert x in free <==> IsFree(bl, x); }
    forall t | t in nb && t != s ensures BlockOk(e, nb, hi, t) {
      assert Apart(bl, s, t) && Apart(bl, t, s) && Placed(bl, lo, hi, t) && BlockOk(d, bl, hi, t);
      if !bl[t].use.Chunks? {
        forall i | t < i < End(bl, t) ensures e[i] == d[i] { Interior(bl, t, i); }
        BlockOkFrame(d, e, bl, nb, hi, t);
      }
    }
  }

  lemma {:induction false} UnlinkedWiped(d: seq<Page>, w: seq<Page>, e: seq<Page>, bl: Blocks, lo: nat, hi: nat, h: nat,
                                         items: seq<nat>, k: nat, kind: Kind)
    requires Covered(bl, lo, hi) && FREE_HEAD < h < lo && Listed(d, h, items, kind) && k < |items|
    requires forall z: nat {:trigger z in items} :: z in items ==> z in bl && bl[z].use.Chunks?
    requires Nth(h, items, k - 1) < |d| && Nth(h, items, k + 1) < |d| && items[k] < |d|
    requires Unlinked(d, w, Nth(h, items, k - 1), Nth(h, items, k + 1), kind)
    requires e == w[items[k] := w[items[k]].(slab := Num(1))]
    ensures items[k] in bl && Wiped(d, e, bl, items[k], 1)
    ensures forall z: nat {:trigger e[z]} :: lo <= z < |e| && z !in bl ==> e[z] == d[z]
  {
    SlotNear(d, bl, lo, hi, h, items, k, kind);
    var x, a, b := items[k], Nth(h, items, k - 1), Nth(h, items, k + 1);
    assert 0 < k && k + 1 < |items| ==> items[k - 1] != items[k + 1];
    assert h in bl ==> Placed(bl, lo, hi, h);
  }

  /** The page has left the slot list it was in, if any. */
  ghost predicate SlotLeft(d: seq<Page>, w: seq<Page>, page: nat, h: nat, items: seq<nat>, k: nat, kind: Kind) {
    var a, b := Nth(h, items, k - 1), Nth(h, items, k + 1);
    page < |d| && (d[page].next == 0 ==> w == d) &&
    (d[page].next != 0 ==> a < |d| && b < |d| && Unlinked(d, w, a, b, kind))
  }

  /** The neighbours of a page in a slot list are pages of chunks, or the slot head. */
  lemma {:induction false} SlotNear(d: seq<Page>, bl: Blocks, lo: nat, hi: nat, h: nat, items: seq<nat>, k: nat,
                                    kind: Kind)
    requires Covered(bl, lo, hi) && FREE_HEAD < h < lo && Listed(d, h, items, kind) && k < |items|
    requires forall z: nat {:trigger z in items} :: z in items ==> z in bl && bl[z].use.Chunks?
    ensures
      var x, a, b := items[k], Nth(h, items, k - 1), Nth(h, items, k + 1);
      x in bl && bl[x].use.Chunks? && bl[x].len == 1 && 0 < a < |d| && 0 < b < |d| && a != x && b != x &&
      a != FREE_HEAD && b != FREE_HEAD && (a == h || (a in bl && bl[a].use.Chunks?)) &&
      (b == h || (b in bl && bl[b].use.Chunks?)) &&
      x < |d| && d[x].prev == Tagged(a, kind) && (b != h ==> d[b].prev.kind == kind)
  {
    ListedNear(d, h, items, kind, k);
    var x, a, b := items[k], Nth(h, items, k - 1), Nth(h, items, k + 1);
    assert x in items && (a != h ==> a in items) && (b != h ==> b in items);
    assert Placed(bl, lo, hi, x) && (a != h ==> Placed(bl, lo, hi, a)) && (b != h ==> Placed(bl, lo, hi, b));
    if b != h { ListedNear(d, h, items, kind, k + 1); }
  }

  /** The neighbours of a listed block, seen while `s` is loose. */
  lemma {:induction false} LooseNeighbour(d: seq<Page>, bl: Blocks, free: seq<nat>, lo: nat, hi: nat, s: nat, i: int)
    requires Loose(d, bl, free, lo, hi, s) && -1 <= i <= |free|
    ensures
      var a := Nth(FREE_HEAD, free, i);
      0 < a < |d| && a != s && (a == FREE_HEAD || IsFree(bl, a)) &&
      forall t {:trigger Placed(bl, lo, hi, t)} :: t in bl && t <= a < End(bl, t) ==> a == t && IsFree(bl, t)
  {
    var a := Nth(FREE_HEAD, free, i);
    if 0 <= i < |free| {
      assert free[i] in free;
      ListedNear(d, FREE_HEAD, free, PAGE, i);
    }
    assert Placed(bl, lo, hi, s);
    forall t | t in bl ensures t <= a < End(bl, t) ==> a == t && IsFree(bl, t) {
      assert Placed(bl, lo, hi, t);
      if IsFree(bl, a) { assert Apart(bl, t, a); }
    }
  }

  /** Two adjacent blocks `s` and `t`, the loose one among them, are made one: the other
      leaves the free list, the head `s` gets the sum of the lengths, `t` is cleared. */
  ghost predicate Merged(d: seq<Page>, e: seq<Page>, free: seq<nat>, k: nat, s: nat, t: nat, len: nat)
    requires k < |free| && t < |d| && s < |d|
  {
    var a, b := Nth(FREE_HEAD, free, k - 1), Nth(FREE_HEAD, free, k + 1);
    a < |d| && b < |d| && |e| == |d| && Cleared(e, t) && e[s].slab == Num(len) &&
    e[a].next == b && e[b].prev == Tagged(a, PAGE) && e[a].slab == d[a].slab && e[b].slab == d[b].slab &&
    (a != b ==> e[a].prev == d[a].prev && e[b].next == d[b].next) &&
    forall z {:trigger e[z]} :: 0 <= z < |d| && z != a && z != b && z != s && z != t ==> e[z] == d[z]
  }

  lemma {:induction false} MergedListed(d: seq<Page>, e: seq<Page>, bl: Blocks, free: seq<nat>, lo: nat, hi: nat,
                                        s: nat, t: nat, x: nat, k: nat)
    requires Loose(d, bl, free, lo, hi, x) && IsFree(bl, s) && IsFree(bl, t) && t == End(bl, s) && s < |d| && t < |d|
    requires k < |free| && (x == s || x == t) && free[k] == s + t - x &&
      Merged(d, e, free, k, s, t, bl[s].len + bl[t].len)
    ensures Listed(e, FREE_HEAD, Dropped(free, k), PAGE)
    ensures forall z: nat {:trigger z in Dropped(free, k)} ::
      z in Dropped(free, k) <==> IsFree(bl, z) && z != s && z != t
  {
    var a, b := Nth(FREE_HEAD, free, k - 1), Nth(FREE_HEAD, free, k + 1);
    var f := e[s := d[s]][t := d[t]];
    LooseNeighbour(d, bl, free, lo, hi, x, k - 1);
    LooseNeighbour(d, bl, free, lo, hi, x, k + 1);
    ListedNear(d, FREE_HEAD, free, PAGE, k);
    assert Placed(bl, lo, hi, s);
    DroppedIn(free, k);
    UnlinkedListed(d, f, FREE_HEAD, free, PAGE, k);
    forall z: nat ensures z in Dropped(free, k) <==>
      IsFree(bl, z) && z != s && z != t { assert z in free <==> IsFree(bl, z) && z != x; }
    assert s !in Dropped(free, k) && t !in Dropped(free, k);
    ListedFrame(f, e, FREE_HEAD, Dropped(free, k), PAGE);
  }

  lemma {:induction false} MergedLoose(d: seq<Page>, e: seq<Page>, bl: Blocks, free: seq<nat>, lo: nat, hi: nat, s: nat,
                                       t: nat, x: nat, k: nat)
    requires Loose(d, bl, free, lo, hi, x) && IsFree(bl, s) && IsFree(bl, t) && t == End(bl, s) && s < |d| && t < |d|
    requires k < |free| && (x == s || x == t) && free[k] == s + t - x &&
      Merged(d, e, free, k, s, t, bl[s].len + bl[t].len)
    ensures Loose(e, Joined(bl, s), Dropped(free, k), lo, hi, s)
  {
    var nb, nf := Joined(bl, s), Dropped(free, k);
    JoinedCovered(bl, lo, hi, s);
    MergedListed(d, e, bl, free, lo, hi, s, t, x, k);
    LooseNeighbour(d, bl, free, lo, hi, x, k - 1);
    LooseNeighbour(d, bl, free, lo, hi, x, k + 1);
    assert Placed(bl, lo, hi, s) && Placed(bl, lo, hi, t);
    forall z: nat ensures z in nf <==>
      IsFree(nb, z) && z != s { assert z in nf <==> IsFree(bl, z) && z != s && z != t; }
    forall i | s < i < End(nb, s) ensures Cleared(e, i) {
      if i != t {
        if x != s && i < t { assert BlockOk(d, bl, hi, s); }
        if x != t && t < i { assert BlockOk(d, bl, hi, t); }
        assert Cleared(d, i);
      }
    }
    forall u | u in nb && u != s ensures BlockOk(e, nb, hi, u) {
      assert Apart(bl, s, u) && Apart(bl, u, s) && Apart(bl, t, u) && Apart(bl, u, t) && Placed(bl, lo, hi, u);
      assert BlockOk(d, bl, hi, u);
      BlockOkFrame(d, e, bl, nb, hi, u);
    }
  }

  lemma {:induction false} MergedKeeps(d: seq<Page>, e: seq<Page>, bl: Blocks, free: seq<nat>, lo: nat, hi: nat, s: nat,
                                       t: nat, x: nat, k: nat)
    requires Loose(d, bl, free, lo, hi, x) && IsFree(bl, s) && IsFree(bl, t) && t == End(bl, s) && s < |d| && t < |d|
    requires k < |free| && (x == s || x == t) && free[k] == s + t - x &&
      Merged(d, e, free, k, s, t, bl[s].len + bl[t].len)
    ensures KeepsUsed(d, e, bl)
  {
    var a, b := Nth(FREE_HEAD, free, k - 1), Nth(FREE_HEAD, free, k + 1);
    LooseNeighbour(d, bl, free, lo, hi, x, k - 1);
    LooseNeighbour(d, bl, free, lo, hi, x, k + 1);
    assert Placed(bl, lo, hi, s) && Within(bl, s, s) && Placed(bl, lo, hi, t) && Within(bl, t, t);
    assert a != FREE_HEAD ==> Placed(bl, lo, hi, a) && Within(bl, a, a);
    assert b != FREE_HEAD ==> Placed(bl, lo, hi, b) && Within(bl, b, b);
  }

  /** `page` is free in `b0` and joined with the free blocks after and before it. */
  ghost predicate Grown(b0: Blocks, b2: Blocks, page: nat, head: nat, p: Option<nat>) {
    IsFree(b0, page) &&
    var b1 := if IsFree(b0, End(b0, page)) then Joined(b0, page) else b0;
    LeftOf(b1, page, p) && (p.Some? ==> head == p.value && b2 == Joined(b1, head)) &&
    (p.None? ==> head == page && b2 == b1)
  }

  lemma {:induction false} GrownFreed(bl: Blocks, b2: Blocks, lo: nat, hi: nat, s: nat, head: nat, p: Option<nat>)
    requires Tiled(bl, lo, hi) && s in bl && !IsFree(bl, s) && Grown(FreedAlone(bl, s), b2, s, head, p)
    ensures 0 < bl[s].len && LeftOf(bl, s, p) && (p.Some? ==> 0 < bl[p.value].len) && b2 == Freed(bl, s, p)
    ensures Tiled(b2, lo, hi) && |UnusedPages(b2, lo, hi)| == |UnusedPages(bl, lo, hi)| + bl[s].len
  {
    assert Placed(bl, lo, hi, s);
    LeftSame(bl, lo, hi, s, p);
    FreedTiled(bl, lo, hi, s, p);
    FreedCount(bl, lo, hi, s, p);
  }

  /** Joining blocks keeps the pages in use through both steps. */
  lemma {:induction false} KeptAll(d0: seq<Page>, d1: seq<Page>, d2: seq<Page>, b0: Blocks, b1: Blocks, b2: Blocks,
                                   lo: nat, hi: nat, s: nat, p: Option<nat>)
    requires Covered(b0, lo, hi) && IsFree(b0, s) && b1 == (if IsFree(b0, End(b0, s)) then Joined(b0, s) else b0)
    requires KeepsUsed(d0, d1, b0) && KeepsUsed(d1, d2, b1)
    ensures KeepsUsed(d0, d2, b0)
  {
    forall i: nat ensures FreePage(b1, i) <==> FreePage(b0, i) {
      if IsFree(b0, End(b0, s)) { JoinedFree(b0, lo, hi, s, i); }
    }
    forall z | 0 <= z < |d0| && z != FREE_HEAD && !FreePage(b0, z) ensures d2[z] == d0[z] {
      assert d1[z] == d0[z];
    }
  }

  lemma {:induction false} KeptEnd(w: seq<Page>, d0: seq<Page>, d2: seq<Page>, d3: seq<Page>, b0: Blocks, b2: Blocks,
                                   lo: nat, hi: nat, s: nat, head: nat, p: Option<nat>)
    requires Covered(b0, lo, hi) && Grown(b0, b2, s, head, p)
    requires KeepsUsed(w, d0, b0) && KeepsUsed(d0, d2, b0) && KeepsUsed(d2, d3, b2)
    ensures KeepsUsed(w, d3, b0)
  {
    var b1 := if IsFree(b0, End(b0, s)) then Joined(b0, s) else b0;
    if IsFree(b0, End(b0, s)) { JoinedCovered(b0, lo, hi, s); }
    forall i: nat ensures FreePage(b2, i) <==> FreePage(b0, i) {
      if IsFree(b0, End(b0, s)) { JoinedFree(b0, lo, hi, s, i); }
      if p.Some? { JoinedFree(b1, lo, hi, p.value, i); }
    }
    forall z | 0 <= z < |w| && z != FREE_HEAD && !FreePage(b0, z) ensures d3[z] == w[z] {
      assert d0[z] == w[z] && d2[z] == d0[z];
    }
  }

  /** The tag is written on the last page and the block is put first in the free list. */
  ghost predicate Pushed(d: seq<Page>, e: seq<Page>, free: seq<nat>, s: nat, len: nat) {
    var b := Nth(FREE_HEAD, free, 0);
    |e| == |d| && s + len <= |d| && 0 < len && FREE_HEAD < |d| && b < |d| &&
    e[s] == Page(d[s].slab, b, Tagged(FREE_HEAD, PAGE)) &&
    e[FREE_HEAD].next == s && (b != FREE_HEAD ==> e[b] == d[b].(prev := Tagged(s, PAGE))) &&
    (1 < len ==> e[s + len - 1] == d[s + len - 1].(prev := Tagged(s, PAGE))) &&
    forall z {:trigger e[z]} :: 0 <= z < |d| && z != s && z != s + len - 1 && z != FREE_HEAD && z != b ==> e[z] == d[z]
  }

  lemma {:induction false} PushedPages(d: seq<Page>, e: seq<Page>, bl: Blocks, free: seq<nat>, lo: nat, hi: nat, s: nat)
    requires Loose(d, bl, free, lo, hi, s) && Coalesced(bl) && Pushed(d, e, free, s, bl[s].len)
    ensures PagesOk(e, bl, [s] + free, lo, hi)
  {
    var nf, len := [s] + free, bl[s].len;
    assert Placed(bl, lo, hi, s);
    LooseNeighbour(d, bl, free, lo, hi, s, 0);
    assert s in free <==> IsFree(bl, s) && s != s;
    forall x: nat ensures x in nf <==> IsFree(bl, x) { assert x in free <==> IsFree(bl, x) && x != s; }
    assert Listed(e, FREE_HEAD, nf, PAGE) by {
      forall z | 0 <= z < |d| && z in free && z != free[0] ensures e[z] == d[z] {
        assert IsFree(bl, z) && Apart(bl, s, z) && Apart(bl, z, s) && Placed(bl, lo, hi, z);
        ListedMember(d, FREE_HEAD, free, PAGE, z);
      }
      if free != [] { ListedNear(d, FREE_HEAD, free, PAGE, 0); }
      PushedListed(d, e, FREE_HEAD, free, PAGE, s);
    }
    forall i | s < i < s + len ensures Cleared(e, i) { assert Cleared(d, i); }
    forall t | t in bl ensures BlockOk(e, bl, hi, t) {
      if t != s {
        assert Apart(bl, s, t) && Apart(bl, t, s) && Placed(bl, lo, hi, t) && BlockOk(d, bl, hi, t);
        if t == Nth(FREE_HEAD, free, 0) { assert e[t] == d[t].(prev := Tagged(s, PAGE)); }
        BlockOkFrame(d, e, bl, bl, hi, t);
      }
    }
  }

  /** What the two coalescing tests of mps_slab_free_pages decide. */
  lemma {:induction false} RightTest(d: seq<Page>, bl: Blocks, free: seq<nat>, lo: nat, hi: nat, s: nat)
    requires Loose(d, bl, free, lo, hi, s) && End(bl, s) < hi
    ensures var t := End(bl, s); t < |d| && t in bl && ((d[t].prev.kind.PAGE? && d[t].next != 0) <==> IsFree(bl, t))
    ensures IsFree(bl, End(bl, s)) ==> End(bl, s) in free && d[End(bl, s)].slab == Num(bl[End(bl, s)].len)
  {
    var t := End(bl, s);
    assert Placed(bl, lo, hi, s) && Placed(bl, lo, hi, t) && BlockOk(d, bl, hi, t);
    if IsFree(bl, t) {
      assert t in free;
      ListedMember(d, FREE_HEAD, free, PAGE, t);
    }
  }

  /** The page before `s` leads to the head of the block that ends there. */
  lemma {:induction false} LeftTest(d: seq<Page>, bl: Blocks, free: seq<nat>, lo: nat, hi: nat, s: nat) returns (p: nat)
    requires Loose(d, bl, free, lo, hi, s) && lo < s
    ensures s - 1 < |d| && p in bl && End(bl, p) == s && p < s && p < |d|
    ensures d[s - 1].prev.kind.PAGE? ==>
      var q := if d[s - 1].slab == Num(0) then d[s - 1].prev.to else s - 1;
      q < |d| && (IsFree(bl, p) ==> q == p) && (d[q].next != 0 <==> IsFree(bl, p))
    ensures IsFree(bl, p) ==> d[s - 1].prev.kind.PAGE? && d[s - 1].slab.Num? && p in free && d[p].slab == Num(bl[p].len)
    ensures forall t {:trigger IsFree(bl, t)} :: IsFree(bl, t) && End(bl, t) == s ==> t == p
  {
    assert Placed(bl, lo, hi, s);
    p := Owner(bl, lo, hi, s - 1);
    assert Placed(bl, lo, hi, p) && BlockOk(d, bl, hi, p);
    assert Apart(bl, p, s);
    forall t | IsFree(bl, t) ensures End(bl, t) == s ==> t == p {
      assert Placed(bl, lo, hi, t);
      assert End(bl, t) == s ==> Within(bl, t, s - 1);
    }
    if bl[p].len > 1 {
      if IsFree(bl, p) { assert Cleared(d, s - 1); }
      if bl[p].use.Large? { assert Busy(d, s - 1); }
    }
    if IsFree(bl, p) {
      assert p in free;
      ListedMember(d, FREE_HEAD, free, PAGE, p);
    }
  }

  lemma {:induction false} FreeHeadUnlisted(d: seq<Page>, bl: Blocks, free: seq<nat>, lo: nat, hi: nat, k: nat)
    requires PagesOk(d, bl, free, lo, hi) && k <= |free| && Nth(FREE_HEAD, free, k) == FREE_HEAD
    ensures k == |free|
  {
    if k < |free| { FreeReads(d, bl, free, lo, hi, k); }
  }

  /** When no listed block has room, no free block has. */
  lemma {:induction false} NoneFits(d: seq<Page>, bl: Blocks, free: seq<nat>, lo: nat, hi: nat, pages: nat)
    requires PagesOk(d, bl, free, lo, hi) && forall j :: 0 <= j < |free| ==> free[j] in bl && bl[free[j]].len < pages
    ensures !exists s: nat :: IsFree(bl, s) && pages <= bl[s].len
  {
    forall s: nat | IsFree(bl, s) ensures bl[s].len < pages { assert s in free; }
  }

  /** What the descriptor of any page says: of the pages that are not cut into chunks, only
      the first page of a large allocation has a `slab` word from START to below BUSY. */
  lemma {:induction false} PageTests(d: seq<Page>, bl: Blocks, free: seq<nat>, lo: nat, hi: nat, t: nat)
    requires PagesOk(d, bl, free, lo, hi) && lo <= t < hi
    ensures d[t].prev.kind.PAGE? <==> !(t in bl && bl[t].use.Chunks?)
    ensures d[t].prev.kind.PAGE? ==> d[t].slab.Num?
    ensures d[t].prev.kind.PAGE? ==> (START <= d[t].slab.n != BUSY <==> t in bl && bl[t].use.Large?)
    ensures t in bl && bl[t].use.Large? ==> d[t].slab == Num(START + bl[t].len) && d[t].next == 0
  {
    var s := Owner(bl, lo, hi, t);
    assert Placed(bl, lo, hi, s) && BlockOk(d, bl, hi, s);
    if t in bl {
      assert Placed(bl, lo, hi, t);
      assert Within(bl, t, t);
    } else {
      if IsFree(bl, s) { assert Cleared(d, t); }
      if bl[s].use.Large? { assert Busy(d, t); }
    }
  }
}
