/** The circular doubly linked queue (src/mps_queue.h). */
module Queue {
  import opened RbShape
  import opened Seqs

  datatype QLink = QLink(prev: Off, next: Off)

  type QMem = map<Off, QLink>

  /** The links of the member at position `i`. */
  ghost predicate LinkOk(q: QMem, h: Off, items: seq<Off>, i: int)
    requires 0 <= i < |items|
  {
    items[i] in q && q[items[i]] == QLink(Nth(h, items, i - 1), Nth(h, items, i + 1))
  }

  /** The ring through the head `h` links exactly `items`, in both directions. */
  ghost predicate Ring(q: QMem, h: Off, items: seq<Off>) {
    h in q && h !in items && NoDup(items) && q[h] == QLink(Nth(h, items, |items| - 1), Nth(h, items, 0)) &&
    forall i {:trigger LinkOk(q, h, items, i)} :: 0 <= i < |items| ==> LinkOk(q, h, items, i)
  }

  ghost function Cells(h: Off, items: seq<Off>): set<Off> {
    {h} + set x | x in items
  }

  /** A ring depends on its own cells only. */
  lemma {:induction false} RingFrame(q: QMem, r: QMem, h: Off, items: seq<Off>)
    requires Ring(q, h, items) && h in q && h in r && r[h] == q[h]
    requires forall x :: x in items && x in q ==> x in r && r[x] == q[x]
    ensures Ring(r, h, items)
  {
    forall i | 0 <= i < |items| ensures LinkOk(r, h, items, i) { assert LinkOk(q, h, items, i) && items[i] in items; }
  }

  /** Only the links between the neighbours `a` and `b` have changed. */
  ghost predicate Joined(q: QMem, r: QMem, a: Off, b: Off, aNext: Off, bPrev: Off) {
    a in q && b in q && a in r && b in r && r[a].next == aNext && r[b].prev == bPrev &&
    (a != b ==> r[a].prev == q[a].prev && r[b].next == q[b].next)
  }

  /** What the links at and around position `k` are. */
  lemma {:induction false} RingNear(q: QMem, h: Off, items: seq<Off>, k: nat)
    requires Ring(q, h, items) && k < |items|
    ensures
      var x, a, b := items[k], Nth(h, items, k - 1), Nth(h, items, k + 1);
      x in q && q[x] == QLink(a, b) && a in q && b in q && q[a].next == x && q[b].prev == x && a != x && b != x
  {
    assert LinkOk(q, h, items, k);
    if k > 0 { assert LinkOk(q, h, items, k - 1); }
    if k + 1 < |items| { assert LinkOk(q, h, items, k + 1); }
  }

  lemma {:induction false} RingNearAll(q: QMem, h: Off, items: seq<Off>)
    requires Ring(q, h, items)
    ensures forall i {:trigger items[i]} :: 0 <= i < |items| ==>
      items[i] in q && items[i] != h && q[items[i]] == QLink(Nth(h, items, i - 1), Nth(h, items, i + 1))
  {
    forall i | 0 <= i < |items|
      ensures items[i] in q && items[i] != h && q[items[i]] == QLink(Nth(h, items, i - 1), Nth(h, items, i + 1))
    {
      assert LinkOk(q, h, items, i) && items[i] in items;
    }
  }

  lemma {:induction false} RingAddHead(q: QMem, r: QMem, h: Off, items: seq<Off>, x: Off)
    requires Ring(q, h, items) && x in r && x != h && x !in items && q.Keys <= r.Keys
    requires Joined(q, r, h, Nth(h, items, 0), x, x) && r[x] == QLink(h, Nth(h, items, 0))
    requires forall z {:trigger r[z]} :: z in q && z != h && z != Nth(h, items, 0) && z != x ==> z in r && r[z] == q[z]
    ensures Ring(r, h, [x] + items)
  {
    var d := [x] + items;
    if items != [] { RingNear(q, h, items, 0); }
    forall i | 0 <= i < |d| ensures LinkOk(r, h, d, i) {
      if i > 0 {
        RingNear(q, h, items, i - 1);
        assert d[i] == items[i - 1] && Nth(h, d, i + 1) == Nth(h, items, i);
      }
    }
    assert Nth(h, d, |d| - 1) == if items == [] then x else Nth(h, items, |items| - 1);
  }

  lemma {:induction false} RingAddTail(q: QMem, r: QMem, h: Off, items: seq<Off>, x: Off)
    requires Ring(q, h, items) && x in r && x != h && x !in items && q.Keys <= r.Keys
    requires Joined(q, r, Nth(h, items, |items| - 1), h, x, x) && r[x] == QLink(Nth(h, items, |items| - 1), h)
    requires forall z {:trigger r[z]} ::
      z in q && z != h && z != Nth(h, items, |items| - 1) && z != x ==> z in r && r[z] == q[z]
    ensures Ring(r, h, items + [x])
  {
    var d, n := items + [x], |items|;
    if n > 0 { RingNear(q, h, items, n - 1); }
    forall i | 0 <= i < |d| ensures LinkOk(r, h, d, i) {
      if i < n {
        RingNear(q, h, items, i);
        assert d[i] == items[i] && Nth(h, d, i - 1) == Nth(h, items, i - 1);
      }
    }
  }

  /** The links of the member at `j` once the neighbours of position `k` are joined. */
  lemma {:induction false} DropLink(q: QMem, r: QMem, h: Off, items: seq<Off>, k: nat, j: nat)
    requires Ring(q, h, items) && k < |items| && r.Keys == q.Keys && j < |items| && j != k
    requires Joined(q, r, Nth(h, items, k - 1), Nth(h, items, k + 1), Nth(h, items, k + 1), Nth(h, items, k - 1))
    requires forall z {:trigger r[z]} ::
      z in q && z != Nth(h, items, k - 1) && z != Nth(h, items, k + 1) ==> r[z] == q[z]
    ensures LinkOk(r, h, Dropped(items, k), if j < k then j else j - 1)
  {
    RingNear(q, h, items, k);
    RingNear(q, h, items, j);
    var d, i := Dropped(items, k), if j < k then j else j - 1;
    assert d[i] == items[j];
    assert Nth(h, d, i + 1) == Nth(h, items, if j == k - 1 then k + 1 else j + 1);
    assert Nth(h, d, i - 1) == Nth(h, items, if j == k + 1 then k - 1 else j - 1);
  }

  /** The neighbours of position `k` are linked to each other. */
  lemma {:induction false} RingDrop(q: QMem, r: QMem, h: Off, items: seq<Off>, k: nat)
    requires Ring(q, h, items) && k < |items| && r.Keys == q.Keys
    requires Joined(q, r, Nth(h, items, k - 1), Nth(h, items, k + 1), Nth(h, items, k + 1), Nth(h, items, k - 1))
    requires forall z {:trigger r[z]} ::
      z in q && z != Nth(h, items, k - 1) && z != Nth(h, items, k + 1) ==> r[z] == q[z]
    ensures Ring(r, h, Dropped(items, k))
  {
    var d, n := Dropped(items, k), |items|;
    DroppedIn(items, k);
    RingNear(q, h, items, k);
    assert Nth(h, d, 0) == Nth(h, items, if k == 0 then 1 else 0);
    assert Nth(h, d, n - 2) == Nth(h, items, if k == n - 1 then n - 2 else n - 1);
    if k > 0 { RingNear(q, h, items, 0); }
    forall i | 0 <= i < n - 1 ensures LinkOk(r, h, d, i) {
      DropLink(q, r, h, items, k, if i < k then i else i + 1);
    }
  }

  class Queues {
    /** The links of all queue members of the pool by offset, heads included. */
    var q: QMem

    constructor ()
      ensures q == map[]
    {
      q := map[];
    }

    /** mps_queue_init. */
    method Init(h: Off)
      modifies this
      ensures q == old(q)[h := QLink(h, h)] && Ring(q, h, [])
    {
      q := q[h := QLink(h, h)];
    }

    /** A new chunk of the pool holds arbitrary links. */
    method Place(x: Off, garbage: QLink)
      modifies this
      ensures q == old(q)[x := garbage]
    {
      q := q[x := garbage];
    }

    /** mps_queue_insert_head. */
    method InsertHead(h: Off, x: Off, ghost items: seq<Off>)
      requires Ring(q, h, items) && x in q && x != h && x !in items
      modifies this
      ensures Ring(q, h, [x] + items) && q.Keys == old(q).Keys
      ensures forall z {:trigger q[z]} :: z in q && z !in Cells(h, items) && z != x ==> q[z] == old(q)[z]
    {
      if items != [] { RingNear(q, h, items, 0); }
      q := q[x := q[x].(next := q[h].next)];
      var xNext := q[x].next;
      q := q[xNext := q[xNext].(prev := x)];
      q := q[x := q[x].(prev := h)];
      q := q[h := q[h].(next := x)];
      RingAddHead(old(q), q, h, items, x);
    }

    /** mps_queue_insert_tail. */
    method InsertTail(h: Off, x: Off, ghost items: seq<Off>)
      requires Ring(q, h, items) && x in q && x != h && x !in items
      modifies this
      ensures Ring(q, h, items + [x]) && q.Keys == old(q).Keys
      ensures forall z {:trigger q[z]} :: z in q && z !in Cells(h, items) && z != x ==> q[z] == old(q)[z]
    {
      if items != [] { RingNear(q, h, items, |items| - 1); }
      q := q[x := q[x].(prev := q[h].prev)];
      var xPrev := q[x].prev;
      q := q[xPrev := q[xPrev].(next := x)];
      q := q[x := q[x].(next := h)];
      q := q[h := q[h].(prev := x)];
      RingAddTail(old(q), q, h, items, x);
    }

    /** mps_queue_remove, as built without NGX_DEBUG: the member keeps its own links. */
    method Remove(x: Off, ghost h: Off, ghost items: seq<Off>, ghost k: nat)
      requires Ring(q, h, items) && k < |items| && items[k] == x
      modifies this
      ensures Ring(q, h, Dropped(items, k)) && q.Keys == old(q).Keys && x in q && q[x] == old(q)[x]
      ensures forall z {:trigger q[z]} :: z in q && z !in Cells(h, items) ==> q[z] == old(q)[z]
    {
      RingNear(q, h, items, k);
      var xNext := q[x].next;
      q := q[xNext := q[xNext].(prev := q[x].prev)];
      var xPrev := q[x].prev;
      q := q[xPrev := q[xPrev].(next := q[x].next)];
      RingDrop(old(q), q, h, items, k);
    }
  }
}
