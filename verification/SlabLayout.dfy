/** Sizes and addresses of the slab pool: pages, chunk sizes, the bitmap that a page of
    small chunks keeps in its first chunks (src/mps_slab.c:87-99, 459-464, 574-606). */
module SlabLayout {
  import opened Powers
  import opened SlabList

  /** Page size and smallest chunk as powers of two, the descriptors of the pages, and the
      offset of the first page. Words have 64 bits; the pool starts on a page boundary. */
  datatype Geometry = Geometry(ps: nat, minShift: nat, lo: nat, hi: nat, start: nat)

  /** The four bits for the shift in a `slab` word allow pages of up to 65536 bytes. */
  predicate GeometryOk(g: Geometry) {
    6 <= g.ps <= 16 && g.minShift < g.ps && g.lo == 2 + g.ps - g.minShift && g.lo <= g.hi < START &&
    0 < g.start && g.start % Pow2(g.ps) == 0
  }

  function PageSize(g: Geometry): nat {
    Pow2(g.ps)
  }

  predicate ShiftOk(g: Geometry, shift: nat) {
    g.minShift <= shift < g.ps
  }

  /** The descriptor of the list head of a chunk size. */
  function Head(g: Geometry, shift: nat): nat
    requires ShiftOk(g, shift)
  {
    2 + shift - g.minShift
  }

  function KindOf(g: Geometry, shift: nat): Kind {
    if shift + 6 < g.ps then SMALL else if shift + 6 == g.ps then EXACT else BIG
  }

  /** The chunks of a page. */
  function Count(g: Geometry, shift: nat): nat
    requires shift < g.ps
  {
    Pow2(g.ps - shift)
  }

  /** The chunks that hold the bitmap of a page of small chunks. */
  function Reserved(g: Geometry, shift: nat): nat
    requires shift < g.ps
  {
    if !KindOf(g, shift).SMALL? then 0
    else var n := Quot(Count(g, shift), Pow2(shift) * 8); if n == 0 then 1 else n
  }

  /** The words of that bitmap. */
  function Words(g: Geometry, shift: nat): nat
    requires shift < g.ps
  {
    Count(g, shift) / 64
  }

  function Addr(g: Geometry, page: nat, off: nat): (a: nat)
    requires g.lo <= page
    ensures g.start <= a
  {
    g.start + (page - g.lo) * PageSize(g) + off
  }

  /** The address of chunk `i` of a page. */
  function ChunkAddr(g: Geometry, page: nat, shift: nat, i: nat): (a: nat)
    requires g.lo <= page
    ensures g.start <= a
  {
    Addr(g, page, i * Pow2(shift))
  }

  /** How many chunks a page has. */
  lemma {:induction false} CountFacts(g: Geometry, shift: nat)
    requires GeometryOk(g) && ShiftOk(g, shift)
    ensures Count(g, shift) * Pow2(shift) == PageSize(g) && 2 <= Count(g, shift) &&
      PageSize(g) / Pow2(shift) == Count(g, shift)
    ensures KindOf(g, shift).SMALL? ==> 128 <= Count(g, shift) && Count(g, shift) == 64 * Words(g, shift)
    ensures KindOf(g, shift).EXACT? ==> Count(g, shift) == 64
    ensures KindOf(g, shift).BIG? ==> Count(g, shift) <= 32
  {
    var c := g.ps - shift;
    Pow2Add(c, shift);
    MulDiv(Count(g, shift), Pow2(shift));
    Pow2Mono(1, c);
    assert Pow2(6) == 64 && Pow2(7) == 128 && Pow2(5) == 32 by { SmallPowers(); }
    if c > 6 {
      Pow2Mono(7, c);
      Pow2Add(6, c - 6);
    } else if c < 6 {
      Pow2Mono(c, 5);
    }
  }

  lemma {:induction false} SmallPowers()
    ensures Pow2(1) == 2 && Pow2(2) == 4 && Pow2(3) == 8 && Pow2(4) == 16 && Pow2(5) == 32 && Pow2(6) == 64 &&
      Pow2(7) == 128
  {
    assert Pow2(2) == 4;
    assert Pow2(4) == 16;
    assert Pow2(6) == 64;
  }

  lemma {:induction false} WordsInPage(g: Geometry, shift: nat)
    requires GeometryOk(g) && ShiftOk(g, shift)
    ensures Words(g, shift) <= PageSize(g) / 8
  {
    Pow2Mono(g.ps - shift, g.ps);
  }

  /** The bitmap fits in the chunks set aside for it, and most of the page is left. */
  lemma {:induction false} ReservedFacts(g: Geometry, shift: nat)
    requires GeometryOk(g) && ShiftOk(g, shift)
    ensures KindOf(g, shift).SMALL? ==>
      var r, w := Reserved(g, shift), Words(g, shift);
      1 <= r && 8 * w <= r * Pow2(shift) && (r + 1) / 64 < w
    ensures Reserved(g, shift) + 2 <= Count(g, shift)
  {
    CountFacts(g, shift);
    if KindOf(g, shift).SMALL? {
      var c, p, k := Count(g, shift), Pow2(shift), g.ps - shift;
      Pow2Add(3, shift);
      assert Pow2(3) == 8 by { SmallPowers(); }
      if 3 + shift <= k {
        Pow2Add(k - 3 - shift, 3 + shift);
        hide Pow2;
        MulDiv(Pow2(k - 3 - shift), Pow2(3 + shift));
        ReservedLarge(c, p, Reserved(g, shift));
      } else {
        Pow2Mono(k, 2 + shift);
        Pow2Add(2, shift);
        assert Pow2(2) == 4;
        hide Pow2;
        DivUnique(c, p * 8, 0, c);
      }
    }
  }

  lemma {:induction false} ReservedLarge(c: nat, p: nat, r: nat)
    requires 0 < p && c == r * (p * 8) && 128 <= c
    ensures c / 8 <= r * p && 8 * r <= c && 0 < r
  {
    assert c == 8 * (r * p);
    MulAtLeast(p, 1);
    assert r * p == r + r * (p - 1);
  }

  /** The page and the place in it that an address stands for. */
  function PageAt(g: Geometry, p: nat): (page: nat)
    requires g.start <= p
    ensures g.lo <= page
  {
    g.lo + Quot(p - g.start, PageSize(g))
  }

  function OffAt(g: Geometry, p: nat): (off: nat)
    requires g.start <= p
    ensures off < PageSize(g)
  {
    Rem(p - g.start, PageSize(g))
  }

  lemma {:induction false} AddrDecode(g: Geometry, page: nat, off: nat)
    requires g.lo <= page && off < PageSize(g)
    ensures PageAt(g, Addr(g, page, off)) == page && OffAt(g, Addr(g, page, off)) == off
  {
    DivUnique(Addr(g, page, off) - g.start, PageSize(g), page - g.lo, off);
  }

  lemma {:induction false} AddrEncode(g: Geometry, p: nat)
    requires g.start <= p
    ensures Addr(g, PageAt(g, p), OffAt(g, p)) == p
  {
  }

  /** The address of a chunk. */
  lemma {:induction false} ChunkDecode(g: Geometry, shift: nat, i: nat)
    requires GeometryOk(g) && ShiftOk(g, shift) && i < Count(g, shift)
    ensures 0 < Pow2(shift) && i * Pow2(shift) + Pow2(shift) <= PageSize(g)
    ensures i * Pow2(shift) / Pow2(shift) == i && i * Pow2(shift) % Pow2(shift) == 0
  {
    CountFacts(g, shift);
    MulDiv(i, Pow2(shift));
    ChunkFits(Count(g, shift), Pow2(shift), i);
  }

  lemma {:induction false} ChunkFits(c: nat, p: nat, i: nat)
    requires i < c
    ensures i * p + p <= c * p
  {
    assert c * p == i * p + p + (c - i - 1) * p;
  }

  /** The size of the chunks for requests of `size` bytes: the smallest one that fits. */
  ghost predicate IsClass(g: Geometry, size: nat, shift: nat) {
    g.minShift <= shift && size <= Pow2(shift) && (g.minShift < shift ==> Pow2(shift - 1) < size)
  }

  /** The pages for requests above half a page. */
  function PagesFor(g: Geometry, size: nat): (n: nat)
    ensures size <= n * PageSize(g) && (0 < size ==> (n - 1) * PageSize(g) < size)
  {
    var q, r := Quot(size, PageSize(g)), Rem(size, PageSize(g));
    assert (q + 1) * PageSize(g) == q * PageSize(g) + PageSize(g) &&
      (q - 1) * PageSize(g) == q * PageSize(g) - PageSize(g);
    q + if r != 0 then 1 else 0
  }

  lemma {:induction false} ClassUnique(g: Geometry, size: nat, a: nat, b: nat)
    requires IsClass(g, size, a) && IsClass(g, size, b)
    ensures a == b
  {
    if a < b { Pow2Mono(a, b - 1); }
    if b < a { Pow2Mono(b, a - 1); }
  }

  /** Requests of up to half a page have a chunk size. */
  lemma {:induction false} ClassOk(g: Geometry, size: nat, shift: nat)
    requires GeometryOk(g) && IsClass(g, size, shift) && size <= PageSize(g) / 2
    ensures ShiftOk(g, shift)
  {
    assert PageSize(g) == 2 * Pow2(g.ps - 1);
    if g.ps <= shift { Pow2Mono(g.ps - 1, shift - 1); }
  }

  lemma {:induction false} Halve(s: nat, b: nat, x: nat)
    requires s * b <= x < (s + 1) * b
    ensures s / 2 * (2 * b) <= x < (s / 2 + 1) * (2 * b)
  {
    var h := s / 2;
    assert h * (2 * b) == 2 * h * b && (h + 1) * (2 * b) == (2 * h + 2) * b;
    assert s * b == 2 * h * b + (s - 2 * h) * b;
  }

  lemma {:induction false} AboveMin(g: Geometry, size: nat, shift: nat)
    requires Pow2(g.minShift) < size && 0 < shift && Pow2(shift - 1) < size <= Pow2(shift)
    ensures IsClass(g, size, shift)
  {
    if shift <= g.minShift { Pow2Mono(shift, g.minShift); }
  }

  /** A place in a page is in one of its chunks. */
  lemma {:induction false} ChunkInPage(g: Geometry, shift: nat, off: nat)
    requires GeometryOk(g) && ShiftOk(g, shift) && off < PageSize(g)
    ensures Quot(off, Pow2(shift)) < Count(g, shift)
    ensures Rem(off, Pow2(shift)) == 0 ==> off == Quot(off, Pow2(shift)) * Pow2(shift)
  {
    CountFacts(g, shift);
    hide Pow2, Quot;
    var q, b, c := Quot(off, Pow2(shift)), Pow2(shift), Count(g, shift);
    assert off == q * b + Rem(off, b);
    if c <= q { MulMono(c, q, b); }
  }

  // ---------- the layout of a new pool ----------

  /** Sizes of the pool header, of a descriptor and of the counters of a chunk size, in bytes
      (64-bit words, a mutex of 40 bytes). */
  const HEADER: nat := 144
  const PAGE_BYTES: nat := 24
  const STAT_BYTES: nat := 32

  function AlignUp(x: nat, b: nat): (r: nat)
    requires 0 < b
    ensures x <= r < x + b && r % b == 0
  {
    var q := Quot(x, b);
    assert Rem(x, b) == 0 || x < (q + 1) * b;
    MulDiv(q, b);
    MulDiv(q + 1, b);
    assert (q + 1) * b == q * b + b;
    if Rem(x, b) == 0 then q * b else (q + 1) * b
  }

  lemma {:induction false} PagesBound(size: nat, b: nat, pages: nat)
    requires 0 < b && pages == Quot(size, b + PAGE_BYTES)
    ensures pages * b + pages * PAGE_BYTES <= size && 0 <= pages * b
  {
    assert size == pages * (b + PAGE_BYTES) + Rem(size, b + PAGE_BYTES);
    assert pages * (b + PAGE_BYTES) == pages * b + pages * PAGE_BYTES;
  }

  /** The adjustment in mps_slab_init is by at most one page, and the pages that are left fit
      before the end. `p` is the offset of the page descriptors. */
  lemma {:induction false} InitFits(p: nat, end: nat, b: nat, pages: nat, start: nat)
    requires 0 < b && p <= end && pages == Quot(end - p, b + PAGE_BYTES) && 0 < pages &&
      start == AlignUp(p + pages * PAGE_BYTES, b)
    ensures start <= end
    ensures
      var m := pages - Quot(end - start, b);
      m <= 1 && 0 <= pages - (if m > 0 then m else 0) && start + (pages - (if m > 0 then m else 0)) * b <= end
  {
    PagesBound(end - p, b, pages);
    MulMono(1, pages, b);
    var c, r := Quot(end - start, b), Rem(end - start, b);
    assert end - start == c * b + r;
    hide AlignUp, Quot, Rem;
    assert (c + 2) * b == c * b + 2 * b;
    if c + 1 < pages { MulMono(c + 2, pages, b); }
    if pages <= c { MulMono(pages, c, b); }
  }

  /** The pages that mps_slab_init computes before it looks at the alignment. */
  function InitPages(ps: nat, minShift: nat, poolSize: nat): nat
    requires minShift <= ps
  {
    var p := HEADER + (ps - minShift) * (PAGE_BYTES + STAT_BYTES);
    if poolSize < p then 0 else Quot(poolSize - p, Pow2(ps) + PAGE_BYTES)
  }

  /** At least one page fits behind the header and the descriptors. */
  predicate Fits(ps: nat, minShift: nat, poolSize: nat)
    requires minShift <= ps
  {
    var p := HEADER + (ps - minShift) * (PAGE_BYTES + STAT_BYTES);
    0 < InitPages(ps, minShift, poolSize) &&
    AlignUp(p + InitPages(ps, minShift, poolSize) * PAGE_BYTES, Pow2(ps)) + Pow2(ps) <= poolSize
  }

  /** The sizes that mps_slab_init computes: the geometry, and the number of descriptors. */
  method Layout(ps: nat, minShift: nat, poolSize: nat) returns (g: Geometry, pages: nat)
    requires 6 <= ps <= 16 && minShift < ps && poolSize < START && Fits(ps, minShift, poolSize)
    ensures GeometryOk(g) && g.ps == ps && g.minShift == minShift && g.lo < g.hi <= g.lo + pages <= g.hi + 1
    ensures pages == InitPages(ps, minShift, poolSize) && g.start + (g.hi - g.lo) * PageSize(g) <= poolSize
    ensures HEADER + (ps - minShift) * (PAGE_BYTES + STAT_BYTES) + pages * PAGE_BYTES <= g.start
    ensures g.hi < g.lo + pages ==> poolSize < g.start + (g.hi + 1 - g.lo) * PageSize(g)
  {
    var n := ps - minShift;
    var p := HEADER + n * PAGE_BYTES + n * STAT_BYTES;
    var b := Pow2(ps);
    pages := Quot(poolSize - p, b + PAGE_BYTES);
    var start := AlignUp(p + pages * PAGE_BYTES, b);
    InitFits(p, poolSize, b, pages, start);
    FitsOne(start, poolSize, b);
    PagesBound(poolSize - p, b, pages);
    var m := pages - Quot(poolSize - start, b);
    var fit := pages;
    if m > 0 {
      fit := pages - m;
      assert poolSize - start == fit * b + Rem(poolSize - start, b) && (fit + 1) * b == fit * b + b;
    }
    g := Geometry(ps, minShift, 2 + n, 2 + n + fit, start);
  }

  lemma {:induction false} FitsOne(start: nat, end: nat, b: nat)
    requires 0 < b && start + b <= end
    ensures 1 <= Quot(end - start, b)
  {
    var q := Quot(end - start, b);
    assert end - start == q * b + Rem(end - start, b);
    if q < 1 { MulMono(q, 0, b); }
  }

  /** The shift of a power of two, counted as mps_slab_sizes_init does. */
  method ShiftOf(size: nat) returns (shift: nat)
    requires 0 < size
    ensures Pow2(shift) <= size < 2 * Pow2(shift)
  {
    shift := 0;
    var n := size;
    while n / 2 != 0
      invariant 0 < n && n * Pow2(shift) <= size < (n + 1) * Pow2(shift)
    {
      Halve(n, Pow2(shift), size);
      n := n / 2;
      shift := shift + 1;
    }
    assert n == 1;
  }

  /** mps_slab_sizes_init. */
  method SizesInit(pagesize: nat) returns (pagesizeShift: nat, maxSize: nat, exactSize: nat, exactShift: nat)
    requires exists ps: nat :: 6 <= ps && pagesize == Pow2(ps)
    ensures pagesize == Pow2(pagesizeShift) && 6 <= pagesizeShift && exactShift == pagesizeShift - 6
    ensures exactSize == Pow2(exactShift) && 64 * exactSize == pagesize && 2 * maxSize == pagesize
  {
    ghost var ps: nat :| 6 <= ps && pagesize == Pow2(ps);
    Halves(ps);
    hide Pow2;
    pagesizeShift := ShiftOf(pagesize);
    SameShift(ps, pagesizeShift);
    maxSize := pagesize / 2;
    exactSize := pagesize / 64;
    exactShift := ShiftOf(exactSize);
    SameShift(ps - 6, exactShift);
  }

  lemma {:induction false} Halves(ps: nat)
    requires 6 <= ps
    ensures Pow2(ps) == 2 * Pow2(ps - 1) == 64 * Pow2(ps - 6)
  {
    assert Pow2(ps - 1) == 2 * Pow2(ps - 2);
    assert Pow2(ps - 3) == 2 * Pow2(ps - 4);
    assert Pow2(ps - 5) == 2 * Pow2(ps - 6);
  }

  lemma {:induction false} SameShift(a: nat, b: nat)
    requires Pow2(b) <= Pow2(a) < 2 * Pow2(b)
    ensures a == b
  {
    if a < b { Pow2Mono(a + 1, b); }
    if b < a { Pow2Mono(b + 1, a); }
  }
}
