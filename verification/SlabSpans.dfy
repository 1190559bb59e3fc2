/** Room for a request in terms of bytes: which stretches of the pool no allocation has bytes of. */
module SlabSpans {
  import opened Powers
  import opened SlabLayout
  import opened SlabChunks
  import opened SlabLive
  import opened SlabRoom

  /** No byte of the `k` pages from page `i` on, counted from 0, is allocated. */
  ghost predicate Unallocated(g: Geometry, live: map<nat, nat>, i: nat, k: nat) {
    g.lo + i + k <= g.hi && forall a {:trigger a in live} :: a in live ==>
      a + live[a] <= g.start + i * PageSize(g) || g.start + (i + k) * PageSize(g) <= a
  }

  /** Some pages in a row that together are large enough are not allocated. */
  ghost predicate PagesFree(g: Geometry, live: map<nat, nat>, size: nat) {
    exists i: nat, k: nat :: size <= k * PageSize(g) && Unallocated(g, live, i, k)
  }

  /** An allocation with a byte between the pages has bytes of one of them. */
  lemma {:induction false} BytesTouch(g: Geometry, a: nat, c: nat, i: nat, k: nat) returns (page: nat)
    requires 0 < c && 0 < k && g.start + i * PageSize(g) < a + c && a < g.start + (i + k) * PageSize(g)
    ensures g.lo + i <= page < g.lo + i + k && Touches(g, a, c, page)
  {
    Pow2Positive(g);
    hide PageSize;
    var b := PageSize(g);
    page := g.lo + i;
    MulMono(i, i + k, b);
    assert Addr(g, page, 0) == g.start + i * b;
    assert (i + 1) * b == i * b + b;
    if g.start + (i + 1) * b <= a {
      var q, r := Quot(a - g.start, b), Rem(a - g.start, b);
      page := g.lo + q;
      assert a == g.start + q * b + r && (q + 1) * b == q * b + b;
      if q < i + 1 { MulMono(q + 1, i + 1, b); }
      if i + k <= q { MulMono(i + k, q, b); }
      assert Addr(g, page, 0) == g.start + q * b;
    }
  }

  lemma {:induction false} TouchBytes(g: Geometry, a: nat, c: nat, i: nat, k: nat, page: nat)
    requires g.lo + i <= page < g.lo + i + k && Touches(g, a, c, page)
    ensures g.start + i * PageSize(g) < a + c && a < g.start + (i + k) * PageSize(g)
  {
    var b, q := PageSize(g), page - g.lo;
    assert Addr(g, page, 0) == g.start + q * b;
    hide PageSize;
    MulMono(i, q, b);
    MulMono(q + 1, i + k, b);
    assert (q + 1) * b == q * b + b;
  }

  lemma {:induction false} SpanClear(g: Geometry, live: map<nat, nat>, i: nat, k: nat)
    requires Positive(live) && 0 < k
    ensures Unallocated(g, live, i, k) <==> ClearFrom(g, live, g.lo + i, k)
  {
    hide PageSize, Touches;
    if Unallocated(g, live, i, k) {
      forall j, a | g.lo + i <= j < g.lo + i + k && a in live ensures !Touches(g, a, live[a], j) {
        if Touches(g, a, live[a], j) { TouchBytes(g, a, live[a], i, k, j); }
      }
      forall j | g.lo + i <= j < g.lo + i + k ensures Clear(g, live, j) {}
    }
    if g.lo + i + k <= g.hi && !Unallocated(g, live, i, k) {
      var a: nat :| a in live && !(a + live[a] <= g.start + i * PageSize(g) || g.start + (i + k) * PageSize(g) <= a);
      var page := BytesTouch(g, a, live[a], i, k);
      assert !Clear(g, live, page);
    }
  }

  /** Enough pages in a row without a byte allocated are room for a request above half a page. */
  lemma {:induction false} PagesGive(g: Geometry, live: map<nat, nat>, size: nat, i: nat, k: nat)
    requires Positive(live) && size > PageSize(g) / 2 && size <= k * PageSize(g) && g.lo + i + k <= g.hi
    requires forall a {:trigger a in live} :: a in live ==>
      a + live[a] <= g.start + i * PageSize(g) || g.start + (i + k) * PageSize(g) <= a
    ensures RoomIn(g, live, size)
  {
    Pow2Positive(g);
    var n := PagesFor(g, size);
    hide PageSize, PagesFor, Clear;
    if k < n { MulMono(k, n - 1, PageSize(g)); }
    assert k == 0 ==> k * PageSize(g) == 0;
    SpanClear(g, live, i, k);
    assert ClearFrom(g, live, g.lo + i, n);
  }

  /** There is room for a request above half a page if and only if there are such pages. */
  lemma {:induction false} LargeIff(g: Geometry, live: map<nat, nat>, size: nat)
    requires Positive(live) && size > PageSize(g) / 2
    ensures RoomIn(g, live, size) <==> exists i: nat, k: nat :: size <= k * PageSize(g) && Unallocated(g, live, i, k)
  {
    hide PageSize, PagesFor, Clear, ClearFrom;
    var n := PagesFor(g, size);
    if RoomIn(g, live, size) {
      var i: nat :| ClearFrom(g, live, i, n);
      ClearStart(g, live, i, n);
      assert n == 0 ==> n * PageSize(g) == 0;
      SpanClear(g, live, i - g.lo, n);
      assert size <= n * PageSize(g) && Unallocated(g, live, i - g.lo, n);
    }
    forall i: nat, k: nat | size <= k * PageSize(g) && Unallocated(g, live, i, k) ensures RoomIn(g, live, size) {
      PagesGive(g, live, size, i, k);
    }
  }

  lemma {:induction false} ClearStart(g: Geometry, live: map<nat, nat>, i: nat, k: nat)
    requires ClearFrom(g, live, i, k)
    ensures g.lo <= i
  {
  }

  // ---------- chunks ----------

  /** The chunk size for a request: the least power of two that is large enough, and not below the
      smallest chunk. */
  ghost predicate LeastPower(g: Geometry, size: nat, s: nat) {
    g.minShift <= s && size <= Pow2(s) && (s == g.minShift || Pow2(s) < 2 * size)
  }

  lemma {:induction false} LeastIsClass(g: Geometry, size: nat, s: nat)
    ensures LeastPower(g, size, s) <==> IsClass(g, size, s)
  {
    if g.minShift < s { assert Pow2(s) == 2 * Pow2(s - 1); }
  }

  /** Chunk `j` of page `i`, counted from 0, is not allocated and holds no bitmap, and all that is
      allocated with bytes of the page are chunks of that size. */
  ghost predicate Spare(g: Geometry, live: map<nat, nat>, s: nat, i: nat, j: nat) {
    g.lo + i < g.hi && s < g.ps && Reserved(g, s) <= j && j * Pow2(s) + Pow2(s) <= PageSize(g) &&
    g.start + i * PageSize(g) + j * Pow2(s) !in live && forall a {:trigger a in live} :: a in live ==>
      a + live[a] <= g.start + i * PageSize(g) || g.start + (i + 1) * PageSize(g) <= a || live[a] == Pow2(s)
  }

  /** Some page has a spare chunk of the size for the request. */
  ghost predicate ChunkFree(g: Geometry, live: map<nat, nat>, size: nat) {
    exists s: nat, i: nat, j: nat :: LeastPower(g, size, s) && Spare(g, live, s, i, j)
  }

  /** The bytes an allocation for a request has: whole pages and no page more than it takes, or a
      chunk of the size for it. */
  ghost predicate RightSize(g: Geometry, size: nat, c: nat) {
    size <= c &&
    if size > PageSize(g) / 2 then c < size + PageSize(g) && Rem(c, PageSize(g)) == 0
    else exists s: nat :: LeastPower(g, size, s) && c == Pow2(s)
  }

  lemma {:induction false} ChunkPlace(g: Geometry, s: nat, i: nat, j: nat)
    requires GeometryOk(g) && ShiftOk(g, s)
    ensures ChunkAddr(g, g.lo + i, s, j) == g.start + i * PageSize(g) + j * Pow2(s)
    ensures j < Count(g, s) <==> j * Pow2(s) + Pow2(s) <= PageSize(g)
  {
    CountFacts(g, s);
    hide Pow2;
    var b, c := Pow2(s), Count(g, s);
    if j < c { ChunkFits(c, b, j); } else { MulMono(c, j, b); }
    assert g.lo + i - g.lo == i;
  }

  /** A page that offers a chunk has a spare one. */
  lemma {:induction false} OffersSpare(g: Geometry, live: map<nat, nat>, s: nat, i: nat)
    requires GeometryOk(g) && ShiftOk(g, s) && Positive(live)
    ensures Offers(g, live, s, g.lo + i) <==> exists j: nat :: Spare(g, live, s, i, j)
  {
    hide Pow2, PageSize, Touches, Reserved, Count, ChunkAddr;
    forall a | a in live
      ensures Touches(g, a, live[a], g.lo + i) <==>
        !(a + live[a] <= g.start + i * PageSize(g) || g.start + (i + 1) * PageSize(g) <= a)
    {
      if Touches(g, a, live[a], g.lo + i) { TouchBytes(g, a, live[a], i, 1, g.lo + i); }
      if !(a + live[a] <= g.start + i * PageSize(g) || g.start + (i + 1) * PageSize(g) <= a) {
        var page := BytesTouch(g, a, live[a], i, 1);
      }
    }
    forall j: nat { ChunkPlace(g, s, i, j); }
    if Offers(g, live, s, g.lo + i) {
      var j: nat :| InRange(g, s, j) && ChunkAddr(g, g.lo + i, s, j) !in live;
      assert Spare(g, live, s, i, j);
    }
    forall j: nat | Spare(g, live, s, i, j) ensures Offers(g, live, s, g.lo + i) {
      assert InRange(g, s, j) && ChunkAddr(g, g.lo + i, s, j) !in live;
    }
  }

  /** There is room for a small request if and only if some page has a spare chunk of its size. */
  lemma {:induction false} SmallIff(g: Geometry, live: map<nat, nat>, size: nat)
    requires GeometryOk(g) && Positive(live) && size <= PageSize(g) / 2
    ensures RoomIn(g, live, size) <==>
      exists s: nat, i: nat, j: nat :: LeastPower(g, size, s) && Spare(g, live, s, i, j)
  {
    hide PageSize, LeastPower, IsClass, Offers, Spare, GeometryOk;
    forall s: nat ensures LeastPower(g, size, s) <==> IsClass(g, size, s) { LeastIsClass(g, size, s); }
    if RoomIn(g, live, size) {
      var s: nat, page: nat :| IsClass(g, size, s) && Offers(g, live, s, page);
      ClassOk(g, size, s);
      OffersIn(g, live, s, page);
      OffersSpare(g, live, s, page - g.lo);
      var j: nat :| Spare(g, live, s, page - g.lo, j);
    }
    forall s: nat, i: nat, j: nat | LeastPower(g, size, s) && Spare(g, live, s, i, j) ensures RoomIn(g, live, size) {
      ClassOk(g, size, s);
      OffersSpare(g, live, s, i);
    }
  }

  /** A spare chunk in a page is room for a small request. */
  lemma {:induction false} ChunkGives(g: Geometry, live: map<nat, nat>, size: nat, s: nat, i: nat, j: nat)
    requires GeometryOk(g) && Positive(live) && size <= PageSize(g) / 2
    requires g.minShift <= s < g.ps && size <= Pow2(s) && (s == g.minShift || Pow2(s) < 2 * size)
    requires g.lo + i < g.hi && Reserved(g, s) <= j && j * Pow2(s) + Pow2(s) <= PageSize(g)
    requires g.start + i * PageSize(g) + j * Pow2(s) !in live
    requires forall a {:trigger a in live} :: a in live ==>
      a + live[a] <= g.start + i * PageSize(g) || g.start + (i + 1) * PageSize(g) <= a || live[a] == Pow2(s)
    ensures RoomIn(g, live, size)
  {
    hide PageSize, RoomIn, Reserved, Pow2;
    assert LeastPower(g, size, s) && Spare(g, live, s, i, j);
    SmallIff(g, live, size);
  }

  lemma {:induction false} GrantedSize(g: Geometry, live: map<nat, nat>, size: nat, p: nat, c: nat)
    requires Granted(g, live, size, p, c)
    ensures RightSize(g, size, c)
  {
    var n := PagesFor(g, size);
    if size > PageSize(g) / 2 {
      hide PageSize;
      assert n * PageSize(g) == (n - 1) * PageSize(g) + PageSize(g);
      MulDiv(n, PageSize(g));
    } else {
      var s: nat :| IsClass(g, size, s) && c == Pow2(s);
      LeastIsClass(g, size, s);
    }
  }
}
