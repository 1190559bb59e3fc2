/** The page level of the pool as blocks: which runs of pages are free, which are one
    allocation of whole pages, which are cut into chunks. */
module SlabBlocks {
  import opened Seqs
  import opened SlabList

  /** What a block is used for; a block of chunks is always one page. */
  datatype Use = Free | Large | Chunks(kind: Kind)

  datatype Block = Block(len: nat, use: Use)

  /** Blocks by their first page. */
  type Blocks = map<nat, Block>

  ghost function End(bl: Blocks, s: nat): nat
    requires s in bl
  {
    s + bl[s].len
  }

  ghost predicate IsFree(bl: Blocks, s: nat) {
    s in bl && bl[s].use.Free?
  }

  /** Two blocks do not overlap. */
  ghost predicate Apart(bl: Blocks, s: nat, t: nat)
    requires s in bl && t in bl
  {
    s < t ==> End(bl, s) <= t
  }

  /** A block lies in the pages, and the next one starts where it ends. */
  ghost predicate Placed(bl: Blocks, lo: nat, hi: nat, s: nat)
    requires s in bl
  {
    lo <= s && 0 < bl[s].len && End(bl, s) <= hi && (End(bl, s) == hi || End(bl, s) in bl) &&
    (bl[s].use.Chunks? ==> bl[s].len == 1 && !bl[s].use.kind.PAGE?)
  }

  /** The blocks cover the pages `lo` to `hi` without overlap. */
  ghost predicate Covered(bl: Blocks, lo: nat, hi: nat) {
    (lo == hi || lo in bl) &&
    (forall s {:trigger Placed(bl, lo, hi, s)} :: s in bl ==> Placed(bl, lo, hi, s)) &&
    (forall s, t {:trigger Apart(bl, s, t)} :: s in bl && t in bl ==> Apart(bl, s, t))
  }

  /** The free blocks are as long as they can be: no two of them are neighbours. */
  ghost predicate Coalesced(bl: Blocks) {
    forall s {:trigger IsFree(bl, s)} :: IsFree(bl, s) ==> !IsFree(bl, End(bl, s))
  }

  ghost predicate Tiled(bl: Blocks, lo: nat, hi: nat) {
    Covered(bl, lo, hi) && Coalesced(bl)
  }

  /** Page `i` belongs to the block at `s`. */
  ghost predicate Within(bl: Blocks, s: nat, i: nat) {
    s in bl && s <= i < End(bl, s)
  }

  ghost predicate FreePage(bl: Blocks, i: nat) {
    exists s :: IsFree(bl, s) && Within(bl, s, i)
  }

  lemma {:induction false} OwnerFrom(bl: Blocks, lo: nat, hi: nat, s: nat, i: nat) returns (t: nat)
    requires Covered(bl, lo, hi) && s in bl && s <= i < hi
    ensures Within(bl, t, i)
    decreases hi - s
  {
    assert Placed(bl, lo, hi, s);
    if i < End(bl, s) { t := s; } else { t := OwnerFrom(bl, lo, hi, End(bl, s), i); }
  }

  /** Every page belongs to exactly one block. */
  lemma {:induction false} Owner(bl: Blocks, lo: nat, hi: nat, i: nat) returns (s: nat)
    requires Covered(bl, lo, hi) && lo <= i < hi
    ensures Within(bl, s, i) && forall t :: Within(bl, t, i) ==> t == s
  {
    s := OwnerFrom(bl, lo, hi, lo, i);
    forall t | Within(bl, t, i) ensures t == s {
      assert Apart(bl, s, t) && Apart(bl, t, s);
    }
  }

  /** No block begins inside another one. */
  lemma {:induction false} Interior(bl: Blocks, s: nat, i: nat)
    requires s in bl && s < i < End(bl, s) && forall t, u {:trigger Apart(bl, t, u)} ::
      t in bl && u in bl ==> Apart(bl, t, u)
    ensures i !in bl
  {
    assert i !in bl || Apart(bl, s, i);
  }

  /** The page after a free block is not free. */
  lemma {:induction false} EndNotFree(bl: Blocks, lo: nat, hi: nat, s: nat)
    requires Tiled(bl, lo, hi) && IsFree(bl, s) && End(bl, s) < hi
    ensures !FreePage(bl, End(bl, s))
  {
    assert Placed(bl, lo, hi, s);
    assert Placed(bl, lo, hi, End(bl, s));
    assert Within(bl, End(bl, s), End(bl, s));
    var t := Owner(bl, lo, hi, End(bl, s));
  }

  /** The pages from `i` on are free, `k` of them. */
  ghost predicate FreeFrom(bl: Blocks, lo: nat, hi: nat, i: nat, k: nat) {
    lo <= i && i + k <= hi && forall j :: i <= j < i + k ==> FreePage(bl, j)
  }

  /** A run of free pages lies within one free block. */
  lemma {:induction false} FreeRun(bl: Blocks, lo: nat, hi: nat, i: nat, k: nat) returns (s: nat)
    requires Tiled(bl, lo, hi) && FreeFrom(bl, lo, hi, i, k) && 0 < k
    ensures IsFree(bl, s) && s <= i && i + k <= End(bl, s)
  {
    s := Owner(bl, lo, hi, i);
    assert FreePage(bl, i);
    assert IsFree(bl, s) && Placed(bl, lo, hi, s);
    if End(bl, s) < i + k { EndNotFree(bl, lo, hi, s); }
  }

  /** There is a free block of `k` pages if and only if there is a run of `k` free pages. */
  lemma {:induction false} FreeRunIff(bl: Blocks, lo: nat, hi: nat, k: nat)
    requires Tiled(bl, lo, hi) && 0 < k
    ensures (exists s: nat :: IsFree(bl, s) && k <= bl[s].len) <==> (exists i: nat :: FreeFrom(bl, lo, hi, i, k))
  {
    if s: nat :| IsFree(bl, s) && k <= bl[s].len {
      assert Placed(bl, lo, hi, s);
      assert forall j :: s <= j < s + k ==> Within(bl, s, j);
      assert FreeFrom(bl, lo, hi, s, k);
    }
    if i: nat :| FreeFrom(bl, lo, hi, i, k) {
      var s := FreeRun(bl, lo, hi, i, k);
    }
  }

  // ---------- changes ----------

  /** The first `k` pages of a free block are taken. */
  ghost function Taken(bl: Blocks, s: nat, k: nat, use: Use): Blocks
    requires IsFree(bl, s) && 0 < k <= bl[s].len
  {
    if k < bl[s].len then bl[s := Block(k, use)][s + k := Block(bl[s].len - k, Free)]
    else bl[s := Block(k, use)]
  }

  lemma {:induction false} TakenCovered(bl: Blocks, lo: nat, hi: nat, s: nat, k: nat, use: Use)
    requires Covered(bl, lo, hi) && IsFree(bl, s) && 0 < k <= bl[s].len
    requires use.Chunks? ==> k == 1 && !use.kind.PAGE?
    ensures Covered(Taken(bl, s, k, use), lo, hi)
  {
    var nb := Taken(bl, s, k, use);
    assert Placed(bl, lo, hi, s);
    assert forall t :: t in nb ==> t in bl || t == s + k;
    forall t | t in nb ensures Placed(nb, lo, hi, t) {
      if t in bl { assert Placed(bl, lo, hi, t) && Apart(bl, s, t) && Apart(bl, t, s); }
    }
    forall t, u | t in nb && u in nb ensures Apart(nb, t, u) {
      if t in bl { assert Placed(bl, lo, hi, t) && Apart(bl, s, t) && Apart(bl, t, s); }
      if u in bl { assert Placed(bl, lo, hi, u) && Apart(bl, s, u) && Apart(bl, u, s); }
      if t in bl && u in bl { assert Apart(bl, t, u); }
    }
  }

  lemma {:induction false} TakenTiled(bl: Blocks, lo: nat, hi: nat, s: nat, k: nat, use: Use)
    requires Tiled(bl, lo, hi) && IsFree(bl, s) && 0 < k <= bl[s].len && !use.Free?
    requires use.Chunks? ==> k == 1 && !use.kind.PAGE?
    ensures Tiled(Taken(bl, s, k, use), lo, hi)
  {
    TakenCovered(bl, lo, hi, s, k, use);
    var nb := Taken(bl, s, k, use);
    assert Placed(bl, lo, hi, s);
    forall t | IsFree(nb, t) ensures !IsFree(nb, End(nb, t)) {
      if t in bl {
        assert Placed(bl, lo, hi, t) && Apart(bl, s, t) && Apart(bl, t, s);
        assert IsFree(bl, t);
      } else {
        assert End(nb, t) == End(bl, s);
      }
      assert IsFree(bl, s);
    }
  }

  /** A block and the one after it made one. */
  ghost function Joined(bl: Blocks, s: nat): Blocks
    requires s in bl && End(bl, s) in bl
  {
    (bl - {End(bl, s)})[s := Block(bl[s].len + bl[End(bl, s)].len, Free)]
  }

  lemma {:induction false} JoinedCovered(bl: Blocks, lo: nat, hi: nat, s: nat)
    requires Covered(bl, lo, hi) && s in bl && End(bl, s) in bl
    ensures Covered(Joined(bl, s), lo, hi)
  {
    var nb, e := Joined(bl, s), End(bl, s);
    assert Placed(bl, lo, hi, s) && Placed(bl, lo, hi, e);
    forall t | t in nb ensures Placed(nb, lo, hi, t) {
      assert Placed(bl, lo, hi, t) && Apart(bl, s, t) && Apart(bl, t, s) && Apart(bl, e, t) && Apart(bl, t, e);
    }
    forall t, u | t in nb && u in nb ensures Apart(nb, t, u) {
      assert Apart(bl, t, u) && Apart(bl, e, u) && Placed(bl, lo, hi, u);
    }
  }

  /** Joining two free blocks changes no page. */
  lemma {:induction false} JoinedFree(bl: Blocks, lo: nat, hi: nat, s: nat, i: nat)
    requires Covered(bl, lo, hi) && IsFree(bl, s) && IsFree(bl, End(bl, s))
    ensures FreePage(Joined(bl, s), i) <==> FreePage(bl, i)
  {
    var nb, e := Joined(bl, s), End(bl, s);
    assert Placed(bl, lo, hi, s) && Placed(bl, lo, hi, e);
    if t: nat :| IsFree(bl, t) && Within(bl, t, i) {
      assert if t != s && t != e then IsFree(nb, t) && Within(nb, t, i) else IsFree(nb, s) && Within(nb, s, i);
    }
    if t: nat :| IsFree(nb, t) && Within(nb, t, i) {
      assert if t != s then Within(bl, t, i) else Within(bl, s, i) || Within(bl, e, i);
    }
  }

  /** `p` is the free block that ends where `s` begins, if there is one. */
  ghost predicate LeftOf(bl: Blocks, s: nat, p: Option<nat>) {
    if p.Some? then IsFree(bl, p.value) && End(bl, p.value) == s
    else forall t {:trigger IsFree(bl, t)} :: IsFree(bl, t) ==> End(bl, t) != s
  }

  lemma {:induction false} NoneLeft(bl: Blocks, lo: nat, hi: nat)
    requires Covered(bl, lo, hi)
    ensures LeftOf(bl, lo, None)
  {
    forall t | IsFree(bl, t) ensures End(bl, t) != lo { assert Placed(bl, lo, hi, t); }
  }

  ghost function FreedAlone(bl: Blocks, s: nat): Blocks
    requires s in bl
  {
    bl[s := bl[s].(use := Free)]
  }

  ghost function FreedRight(bl: Blocks, s: nat): Blocks
    requires s in bl && 0 < bl[s].len
  {
    if IsFree(bl, End(bl, s)) then Joined(FreedAlone(bl, s), s) else FreedAlone(bl, s)
  }

  /** The block `s` becomes free and is made one with the free neighbours it has. */
  ghost function Freed(bl: Blocks, s: nat, p: Option<nat>): Blocks
    requires s in bl && 0 < bl[s].len && !IsFree(bl, s) && LeftOf(bl, s, p) && (p.Some? ==> 0 < bl[p.value].len)
  {
    if p.Some? then Joined(FreedRight(bl, s), p.value) else FreedRight(bl, s)
  }

  lemma {:induction false} LeftSame(bl: Blocks, lo: nat, hi: nat, s: nat, p: Option<nat>)
    requires Covered(bl, lo, hi) && s in bl && 0 < bl[s].len && !IsFree(bl, s) && LeftOf(FreedRight(bl, s), s, p)
    ensures LeftOf(bl, s, p) && (p.Some? ==> 0 < bl[p.value].len)
  {
    assert Placed(bl, lo, hi, s);
    var nb, e := FreedRight(bl, s), End(bl, s);
    forall t | IsFree(bl, t) ensures t != s && (t != e ==> IsFree(nb, t) && End(nb, t) == End(bl, t)) &&
      (t == e ==> End(bl, t) != s) {
      assert Placed(bl, lo, hi, t);
    }
    if p.Some? { assert p.value != s && p.value != e && Placed(bl, lo, hi, p.value); }
  }

  lemma {:induction false} FreedTiled(bl: Blocks, lo: nat, hi: nat, s: nat, p: Option<nat>)
    requires Tiled(bl, lo, hi) && s in bl && 0 < bl[s].len && !IsFree(bl, s) && LeftOf(bl, s, p)
    requires p.Some? ==> 0 < bl[p.value].len
    ensures Tiled(Freed(bl, s, p), lo, hi)
  {
    var b0, b1, nb, e := FreedAlone(bl, s), FreedRight(bl, s), Freed(bl, s, p), End(bl, s);
    assert Placed(bl, lo, hi, s);
    assert Covered(b0, lo, hi) by {
      forall t | t in b0 ensures Placed(b0, lo, hi, t) { assert Placed(bl, lo, hi, t); }
      forall t, u | t in b0 && u in b0 ensures Apart(b0, t, u) { assert Apart(bl, t, u); }
    }
    if IsFree(bl, e) { JoinedCovered(b0, lo, hi, s); }
    if p.Some? { JoinedCovered(b1, lo, hi, p.value); }
    FreedCoalesced(bl, lo, hi, s, p);
  }

  lemma {:induction false} FreedCoalesced(bl: Blocks, lo: nat, hi: nat, s: nat, p: Option<nat>)
    requires Tiled(bl, lo, hi) && s in bl && 0 < bl[s].len && !IsFree(bl, s) && LeftOf(bl, s, p)
    requires p.Some? ==> 0 < bl[p.value].len
    ensures Coalesced(Freed(bl, s, p))
  {
    var nb, e := Freed(bl, s, p), End(bl, s);
    var m := if p.Some? then p.value else s;
    forall t | IsFree(nb, t) ensures !IsFree(nb, End(nb, t)) {
      if t != m {
        assert IsFree(bl, t);
      } else {
        assert IsFree(bl, e) || !IsFree(bl, e);
        assert End(nb, t) == if IsFree(bl, e) then End(bl, e) else e;
      }
    }
  }

  // ---------- the number of free pages ----------

  ghost function UnusedPages(bl: Blocks, lo: nat, hi: nat): set<nat> {
    set i: nat | lo <= i < hi && FreePage(bl, i)
  }

  /** The pages `s` to `s + k`. */
  ghost function Span(s: nat, k: nat): (r: set<nat>)
    ensures |r| == k && forall i: nat :: i in r <==> s <= i < s + k
  {
    if k == 0 then {} else Span(s, k - 1) + {s + k - 1}
  }

  lemma {:induction false} TakenFree(bl: Blocks, lo: nat, hi: nat, s: nat, k: nat, use: Use, i: nat)
    requires Tiled(bl, lo, hi) && IsFree(bl, s) && 0 < k <= bl[s].len && !use.Free?
    ensures FreePage(Taken(bl, s, k, use), i) <==> FreePage(bl, i) && !(s <= i < s + k)
  {
    var nb := Taken(bl, s, k, use);
    assert Placed(bl, lo, hi, s);
    if t: nat :| IsFree(bl, t) && Within(bl, t, i) {
      assert Apart(bl, s, t) && Apart(bl, t, s);
      assert t != s ==> IsFree(nb, t) && Within(nb, t, i);
      assert t == s && s + k <= i ==> IsFree(nb, s + k) && Within(nb, s + k, i);
    }
    if t: nat :| IsFree(nb, t) && Within(nb, t, i) {
      if t in bl { assert Apart(bl, s, t) && Apart(bl, t, s); }
      assert if t == s + k then Within(bl, s, i) else IsFree(bl, t) && Within(bl, t, i);
    }
  }

  /** Taking `k` pages leaves `k` fewer free. */
  lemma {:induction false} TakenCount(bl: Blocks, lo: nat, hi: nat, s: nat, k: nat, use: Use)
    requires Tiled(bl, lo, hi) && IsFree(bl, s) && 0 < k <= bl[s].len && !use.Free?
    ensures |UnusedPages(Taken(bl, s, k, use), lo, hi)| + k == |UnusedPages(bl, lo, hi)|
  {
    var nb := Taken(bl, s, k, use);
    assert Placed(bl, lo, hi, s);
    forall i: nat ensures FreePage(nb, i) <==>
      FreePage(bl, i) && !(s <= i < s + k) { TakenFree(bl, lo, hi, s, k, use, i); }
    assert forall i :: s <= i < s + k ==> Within(bl, s, i);
    assert UnusedPages(bl, lo, hi) == UnusedPages(nb, lo, hi) + Span(s, k);
    assert UnusedPages(nb, lo, hi) !! Span(s, k);
  }

  lemma {:induction false} FreedFree(bl: Blocks, lo: nat, hi: nat, s: nat, p: Option<nat>, i: nat)
    requires Tiled(bl, lo, hi) && s in bl && 0 < bl[s].len && !IsFree(bl, s) && LeftOf(bl, s, p)
    requires p.Some? ==> 0 < bl[p.value].len
    ensures FreePage(Freed(bl, s, p), i) <==> FreePage(bl, i) || s <= i < End(bl, s)
    ensures s <= i < End(bl, s) ==> !FreePage(bl, i)
  {
    var nb, e, k := Freed(bl, s, p), End(bl, s), bl[s].len;
    var m := if p.Some? then p.value else s;
    assert Placed(bl, lo, hi, s);
    assert nb[m].len == (if p.Some? then bl[m].len else 0) + k + (if IsFree(bl, e) then bl[e].len else 0);
    if t: nat :| IsFree(bl, t) && Within(bl, t, i) {
      assert Apart(bl, s, t) && Apart(bl, t, s);
      assert if t != m && t != e then IsFree(nb, t) && Within(nb, t, i) else IsFree(nb, m) && Within(nb, m, i);
    }
    assert s <= i < e ==> IsFree(nb, m) && Within(nb, m, i);
    if t: nat :| IsFree(nb, t) && Within(nb, t, i) {
      assert t != m ==> IsFree(bl, t) && Within(bl, t, i);
      assert t == m && e <= i ==> IsFree(bl, e) && Within(bl, e, i);
      assert t == m && i < s ==> IsFree(bl, m) && Within(bl, m, i);
    }
  }

  /** Freeing a block makes its pages free and no others. */
  lemma {:induction false} FreedCount(bl: Blocks, lo: nat, hi: nat, s: nat, p: Option<nat>)
    requires Tiled(bl, lo, hi) && s in bl && 0 < bl[s].len && !IsFree(bl, s) && LeftOf(bl, s, p)
    requires p.Some? ==> 0 < bl[p.value].len
    ensures |UnusedPages(Freed(bl, s, p), lo, hi)| == |UnusedPages(bl, lo, hi)| + bl[s].len
  {
    var nb, e, k := Freed(bl, s, p), End(bl, s), bl[s].len;
    assert Placed(bl, lo, hi, s);
    forall i: nat
      ensures FreePage(nb, i) <==> FreePage(bl, i) || s <= i < e
      ensures s <= i < e ==> !FreePage(bl, i)
    {
      FreedFree(bl, lo, hi, s, p, i);
    }
    assert UnusedPages(nb, lo, hi) == UnusedPages(bl, lo, hi) + Span(s, k);
    assert UnusedPages(bl, lo, hi) !! Span(s, k);
  }

  /** When nothing is allocated there is one free run of all pages. */
  lemma {:induction false} AllFreeIsOne(bl: Blocks, lo: nat, hi: nat)
    requires Tiled(bl, lo, hi) && lo < hi && forall s :: s in bl ==> IsFree(bl, s)
    ensures bl == map[lo := Block(hi - lo, Free)]
  {
    assert Placed(bl, lo, hi, lo) && IsFree(bl, lo);
    assert End(bl, lo) == hi;
    forall s | s in bl ensures s == lo { assert Apart(bl, lo, s) && Placed(bl, lo, hi, s); }
  }

  lemma {:induction false} WholeCount(lo: nat, hi: nat)
    requires lo < hi
    ensures |UnusedPages(map[lo := Block(hi - lo, Free)], lo, hi)| == hi - lo
  {
    var bl: Blocks := map[lo := Block(hi - lo, Free)];
    forall i: nat | lo <= i < hi ensures FreePage(bl, i) { assert IsFree(bl, lo) && Within(bl, lo, i); }
    assert UnusedPages(bl, lo, hi) == Span(lo, hi - lo);
  }
}
