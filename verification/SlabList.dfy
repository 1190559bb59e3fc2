/** Page descriptors of the slab allocator and the doubly linked lists through them
    (src/mps_slab.h:20-24, src/mps_slab.c:14-18, 34-57). */
module SlabList {
  import opened Seqs

  /** The page type, kept in the two low bits of `prev`. */
  datatype Kind = PAGE | BIG | EXACT | SMALL

  /** A `prev` word: a descriptor, or 0, together with the type in its low bits. */
  datatype Tagged = Tagged(to: nat, kind: Kind)

  /** A `slab` word, by its use: a count, or 64 bits (the positions of the ones). */
  datatype Word = Num(n: nat) | Bits(b: set<nat>)

  /** A descriptor. Descriptors are numbered in the order of their offsets: 0 is the
      null offset, 1 the head of the free list, then come the slot heads and the pages. */
  datatype Page = Page(slab: Word, next: nat, prev: Tagged)

  const FREE_HEAD: nat := 1

  const START: nat := 0x8000_0000_0000_0000

  const BUSY: nat := 0xFFFF_FFFF_FFFF_FFFF

  /** The links of the member at position `i`. */
  ghost predicate LinkOk(d: seq<Page>, h: nat, items: seq<nat>, kind: Kind, i: int)
    requires 0 <= i < |items|
  {
    0 < items[i] < |d| && items[i] != h &&
    d[items[i]].next == Nth(h, items, i + 1) && d[items[i]].prev == Tagged(Nth(h, items, i - 1), kind)
  }

  /** The list with head `h` holds exactly `items`. The `prev` word of the head is never
      read and not constrained. */
  ghost predicate Listed(d: seq<Page>, h: nat, items: seq<nat>, kind: Kind) {
    0 < h < |d| && NoDup(items) && d[h].next == Nth(h, items, 0) &&
    forall i {:trigger LinkOk(d, h, items, kind, i)} :: 0 <= i < |items| ==> LinkOk(d, h, items, kind, i)
  }

  lemma {:induction false} ListedMember(d: seq<Page>, h: nat, items: seq<nat>, kind: Kind, x: nat)
    requires Listed(d, h, items, kind) && x in items
    ensures 0 < x < |d| && x != h && d[x].next != 0 && d[x].prev.to != 0 && d[x].prev.kind == kind
  {
    var i :| 0 <= i < |items| && items[i] == x;
    assert LinkOk(d, h, items, kind, i);
    ListedNear(d, h, items, kind, i);
  }

  lemma {:induction false} ListedFrame(d: seq<Page>, e: seq<Page>, h: nat, items: seq<nat>, kind: Kind)
    requires Listed(d, h, items, kind) && |e| == |d| && e[h].next == d[h].next
    requires forall x {:trigger e[x]} :: 0 <= x < |d| && x in items ==> e[x].next == d[x].next && e[x].prev == d[x].prev
    ensures Listed(e, h, items, kind)
  {
    forall i | 0 <= i < |items| ensures LinkOk(e, h, items, kind, i) {
      assert LinkOk(d, h, items, kind, i);
    }
  }

  /** What is read at and around position `k`. */
  lemma {:induction false} ListedNear(d: seq<Page>, h: nat, items: seq<nat>, kind: Kind, k: nat)
    requires Listed(d, h, items, kind) && k < |items|
    ensures
      var x, a, b := items[k], Nth(h, items, k - 1), Nth(h, items, k + 1);
      0 < x < |d| && x != h && d[x].next == b && d[x].prev == Tagged(a, kind) && 0 < a < |d| && 0 < b < |d| &&
      d[a].next == x && a != x && b != x
  {
    assert LinkOk(d, h, items, kind, k);
    if k > 0 { assert LinkOk(d, h, items, kind, k - 1); }
    if k + 1 < |items| { assert LinkOk(d, h, items, kind, k + 1); }
  }

  /** The descriptors after a member between `a` and `b` is taken out of its list. */
  ghost predicate Unlinked(d: seq<Page>, e: seq<Page>, a: nat, b: nat, kind: Kind)
    requires a < |d| && b < |d|
  {
    |e| == |d| && e[a].next == b && e[b].prev == Tagged(a, kind) && e[a].slab == d[a].slab && e[b].slab == d[b].slab &&
    (a != b ==> e[a].prev == d[a].prev && e[b].next == d[b].next) &&
    forall z {:trigger e[z]} :: 0 <= z < |d| && z != a && z != b ==> e[z] == d[z]
  }

  lemma {:induction false} DropLink(d: seq<Page>, e: seq<Page>, h: nat, items: seq<nat>, kind: Kind, k: nat, j: nat)
    requires Listed(d, h, items, kind) && k < |items| && Nth(h, items, k - 1) < |d| && Nth(h, items, k + 1) < |d|
    requires Unlinked(d, e, Nth(h, items, k - 1), Nth(h, items, k + 1), kind)
    requires j < |items| && j != k
    ensures LinkOk(e, h, Dropped(items, k), kind, if j < k then j else j - 1)
  {
    ListedNear(d, h, items, kind, k);
    ListedNear(d, h, items, kind, j);
    hide Listed;
    var t, i := Dropped(items, k), if j < k then j else j - 1;
    assert t[i] == items[j];
    assert Nth(h, t, i + 1) == Nth(h, items, if j == k - 1 then k + 1 else j + 1);
    assert Nth(h, t, i - 1) == Nth(h, items, if j == k + 1 then k - 1 else j - 1);
  }

  lemma {:induction false} UnlinkedListed(d: seq<Page>, e: seq<Page>, h: nat, items: seq<nat>, kind: Kind, k: nat)
    requires Listed(d, h, items, kind) && k < |items| && Nth(h, items, k - 1) < |d| && Nth(h, items, k + 1) < |d|
    requires Unlinked(d, e, Nth(h, items, k - 1), Nth(h, items, k + 1), kind)
    ensures Listed(e, h, Dropped(items, k), kind)
  {
    DroppedIn(items, k);
    var t := Dropped(items, k);
    if k > 0 { ListedNear(d, h, items, kind, 0); }
    ListedNear(d, h, items, kind, k);
    assert e[h].next == Nth(h, t, 0);
    forall i | 0 <= i < |t| ensures LinkOk(e, h, t, kind, i) {
      DropLink(d, e, h, items, kind, k, if i < k then i else i + 1);
    }
  }

  /** A new first member. */
  lemma {:induction false} PushedListed(d: seq<Page>, e: seq<Page>, h: nat, items: seq<nat>, kind: Kind, x: nat)
    requires Listed(d, h, items, kind) && 0 < x < |d| && x != h && x !in items && |e| == |d|
    requires e[h].next == x && e[x].next == Nth(h, items, 0) && e[x].prev == Tagged(h, kind)
    requires items != [] ==>
      items[0] < |d| && e[items[0]].next == d[items[0]].next && e[items[0]].prev == Tagged(x, kind)
    requires forall z {:trigger e[z]} :: 0 <= z < |d| && z in items && z != items[0] ==>
      e[z].next == d[z].next && e[z].prev == d[z].prev
    ensures Listed(e, h, [x] + items, kind)
  {
    var t := [x] + items;
    forall i | 0 <= i < |t| ensures LinkOk(e, h, t, kind, i) {
      if i > 0 {
        ListedNear(d, h, items, kind, i - 1);
        assert t[i] == items[i - 1] && Nth(h, t, i + 1) == Nth(h, items, i);
      }
    }
  }

  /** The member at position `k` is replaced by `y`, which takes over its links. */
  ghost predicate Replaced(d: seq<Page>, e: seq<Page>, h: nat, items: seq<nat>, kind: Kind, k: nat, y: nat)
    requires k < |items| && y < |d|
  {
    var a, b := Nth(h, items, k - 1), Nth(h, items, k + 1);
    |e| == |d| && a < |d| && b < |d| &&
    e[y].next == b && e[y].prev == Tagged(a, kind) && e[a].next == y && e[b].prev == Tagged(y, kind) &&
    (a != b ==> e[a].prev == d[a].prev && e[b].next == d[b].next) &&
    forall z {:trigger e[z]} :: 0 <= z < |d| && (z in items || z == h) && z != a && z != b && z != items[k] ==>
      e[z].next == d[z].next && e[z].prev == d[z].prev
  }

  lemma {:induction false} ReplacedListed(d: seq<Page>, e: seq<Page>, h: nat, items: seq<nat>, kind: Kind, k: nat,
                                          y: nat)
    requires Listed(d, h, items, kind) && k < |items| && 0 < y < |d| && y != h && y !in items
    requires Replaced(d, e, h, items, kind, k, y)
    ensures Listed(e, h, items[k := y], kind)
  {
    var t := items[k := y];
    ListedNear(d, h, items, kind, k);
    if k > 0 { ListedNear(d, h, items, kind, 0); }
    assert e[h].next == Nth(h, t, 0);
    forall i | 0 <= i < |t| ensures LinkOk(e, h, t, kind, i) {
      ListedNear(d, h, items, kind, i);
    }
  }

  /** A list is empty if and only if what its head leads to leads to itself. */
  lemma {:induction false} FrontTest(d: seq<Page>, h: nat, items: seq<nat>, kind: Kind)
    requires Listed(d, h, items, kind)
    ensures d[h].next < |d| && (d[d[h].next].next != d[h].next <==> items != []) &&
      (items != [] ==> d[h].next == items[0])
  {
    if items != [] { ListedNear(d, h, items, kind, 0); }
  }
}
