/** The memory of the dictionary before a call, and what is left of it once some of its
    entries are gone. */
module DictRoom {
  import opened RbShape
  import opened NgxString
  import opened Seqs
  import opened DictState
  import SlabLayout
  import SlabRoom

  /** The geometry of the pool and what is allocated: the header `h`, the entries in order of
      recency, and the elements of their lists. */
  datatype Space = Space(g: SlabLayout.Geometry, live: map<Off, nat>, h: Off, addrs: seq<Off>, nodes: map<Off,
                         seq<Off>>)

  ghost predicate SpaceOk(sp: Space) {
    Sep(sp.h, sp.addrs, sp.nodes) && sp.live.Keys == Footprint(sp.h, sp.addrs, sp.nodes)
  }

  /** What stays allocated of the header, these entries and their lists. */
  ghost function Rest(sp: Space, keep: seq<Off>): map<Off, nat> {
    map p | p in sp.live && (p == sp.h || p in keep || exists a :: a in keep && a in sp.nodes && p in sp.nodes[a]) ::
      sp.live[p]
  }

  /** There is room for `n` bytes when only these entries are kept. */
  ghost predicate RoomWith(sp: Space, keep: seq<Off>, n: nat) {
    SlabRoom.RoomIn(sp.g, Rest(sp, keep), n)
  }

  /** What is asked for an entry with a value of `len` bytes, for an entry with a list, and
      for an element of a list. */
  function EntryBytes(key: seq<byte>, len: nat): nat {
    ENTRY_BYTES + |key| + len
  }

  function ListBytes(key: seq<byte>): nat {
    SlabLayout.AlignUp(ENTRY_BYTES + |key| + QUEUE_BYTES, 8)
  }

  function NodeBytes(e: Elem): nat {
    LNODE_BYTES + |e.data|
  }

  /** The allocations are some of those, as large as they were. */
  ghost predicate Fewer(few: map<Off, nat>, live: map<Off, nat>) {
    forall p {:trigger p in few} :: p in few ==> p in live && live[p] == few[p]
  }

  lemma {:induction false} FewerSame(a: map<Off, nat>)
    ensures Fewer(a, a)
  {
  }

  lemma {:induction false} FewerTrans(a: map<Off, nat>, b: map<Off, nat>, c: map<Off, nat>)
    requires Fewer(a, b) && Fewer(b, c)
    ensures Fewer(a, c)
  {
  }

  /** If there is room to begin with, there is room once entries are gone. */
  lemma {:induction false} RoomStays(sp: Space, keep: seq<Off>, n: nat)
    requires SlabRoom.RoomIn(sp.g, sp.live, n)
    ensures RoomWith(sp, keep, n)
  {
    SlabRoom.RoomFewer(sp.g, sp.live, Rest(sp, keep), n);
  }

  /** What is live now is what is kept. */
  lemma {:induction false} RestIs(sp: Space, live: map<Off, nat>, keep: seq<Off>)
    requires Sep(sp.h, keep, sp.nodes) && live.Keys == Footprint(sp.h, keep, sp.nodes) && Fewer(live, sp.live)
    ensures Rest(sp, keep) == live
  {
    var r := Rest(sp, keep);
    forall p ensures p in r <==> p in live { assert p in live.Keys <==> p in Footprint(sp.h, keep, sp.nodes); }
  }

  // ---------- the records fit their allocations ----------

  /** The allocation at `a` is large enough for the item, and so are those of the elements. */
  ghost predicate FitsAt(caps: map<Off, nat>, a: Off, ns: seq<Off>, it: Item) {
    a in caps &&
    match it.value
    case Scalar(_, data) => EntryBytes(it.key, |data|) <= caps[a]
    case List(elems) => ListBytes(it.key) <= caps[a] && |ns| == |elems| && ElemsFit(caps, ns, elems)
  }

  ghost predicate ElemsFit(caps: map<Off, nat>, ns: seq<Off>, elems: seq<Elem>) {
    |ns| == |elems| && forall j {:trigger ns[j]} {:trigger elems[j]} ::
      0 <= j < |ns| ==> ns[j] in caps && NodeBytes(elems[j]) <= caps[ns[j]]
  }

  ghost predicate FitsIn(caps: map<Off, nat>, addrs: seq<Off>, items: seq<Item>, nodes: map<Off, seq<Off>>, i: int)
    requires 0 <= i < |addrs| == |items|
  {
    addrs[i] in nodes && FitsAt(caps, addrs[i], nodes[addrs[i]], items[i])
  }

  ghost predicate Fits(caps: map<Off, nat>, addrs: seq<Off>, items: seq<Item>, nodes: map<Off, seq<Off>>) {
    |addrs| == |items| && forall i {:trigger FitsIn(caps, addrs, items, nodes, i)} ::
      0 <= i < |addrs| ==> FitsIn(caps, addrs, items, nodes, i)
  }

  lemma {:induction false} FitsHead(caps: map<Off, nat>, addrs: seq<Off>, items: seq<Item>, nodes: map<Off, seq<Off>>,
                                    k: nat)
    requires Fits(caps, addrs, items, nodes) && k < |addrs|
    ensures |items| == |addrs| && addrs[k] in nodes && FitsAt(caps, addrs[k], nodes[addrs[k]], items[k])
  {
    assert FitsIn(caps, addrs, items, nodes, k);
  }

  lemma {:induction false} FitsDropped(caps: map<Off, nat>, addrs: seq<Off>, items: seq<Item>,
                                       nodes: map<Off, seq<Off>>, k: nat)
    requires Fits(caps, addrs, items, nodes) && k < |addrs|
    ensures |items| == |addrs| && Fits(caps, Dropped(addrs, k), Dropped(items, k), nodes)
  {
    hide FitsAt;
    forall i | 0 <= i < |addrs| - 1 ensures FitsIn(caps, Dropped(addrs, k), Dropped(items, k), nodes, i) {
      assert FitsIn(caps, addrs, items, nodes, if i < k then i else i + 1);
    }
  }

  lemma {:induction false} FitsMore(caps: map<Off, nat>, addrs: seq<Off>, items: seq<Item>, nodes: map<Off, seq<Off>>,
                                    a: Off, it: Item)
    requires Fits(caps, addrs, items, nodes) && a in nodes && FitsAt(caps, a, nodes[a], it)
    ensures Fits(caps, [a] + addrs, [it] + items, nodes)
  {
    hide FitsAt;
    forall i | 0 <= i < |addrs| + 1 ensures FitsIn(caps, [a] + addrs, [it] + items, nodes, i) {
      if i > 0 { assert FitsIn(caps, addrs, items, nodes, i - 1); }
    }
  }

  lemma {:induction false} FitsTouched(caps: map<Off, nat>, addrs: seq<Off>, items: seq<Item>,
                                       nodes: map<Off, seq<Off>>, k: nat)
    requires Fits(caps, addrs, items, nodes) && k < |addrs|
    ensures |items| == |addrs| && Fits(caps, [addrs[k]] + Dropped(addrs, k), [items[k]] + Dropped(items, k), nodes)
  {
    FitsHead(caps, addrs, items, nodes, k);
    FitsDropped(caps, addrs, items, nodes, k);
    hide FitsAt, Fits;
    FitsMore(caps, Dropped(addrs, k), Dropped(items, k), nodes, addrs[k], items[k]);
  }

  /** The list or the value of one entry changes. */
  lemma {:induction false} FitsSet(caps: map<Off, nat>, addrs: seq<Off>, items: seq<Item>, nodes: map<Off, seq<Off>>,
                                   k: nat, it: Item, ns: seq<Off>)
    requires Fits(caps, addrs, items, nodes) && k < |addrs| && NoDup(addrs) && FitsAt(caps, addrs[k], ns, it)
    ensures |items| == |addrs| && Fits(caps, addrs, items[k := it], nodes[addrs[k] := ns])
  {
    hide FitsAt;
    var items2, nodes2 := items[k := it], nodes[addrs[k] := ns];
    forall i | 0 <= i < |addrs| ensures FitsIn(caps, addrs, items2, nodes2, i) {
      if i != k { assert FitsIn(caps, addrs, items, nodes, i) && addrs[i] != addrs[k]; }
    }
  }

  /** A new entry. */
  lemma {:induction false} FitsAdded(caps: map<Off, nat>, addrs: seq<Off>, items: seq<Item>, nodes: map<Off, seq<Off>>,
                                     a: Off, it: Item)
    requires Fits(caps, addrs, items, nodes) && a !in addrs && FitsAt(caps, a, [], it)
    ensures Fits(caps, [a] + addrs, [it] + items, nodes[a := []])
  {
    hide FitsAt;
    var nodes2 := nodes[a := []];
    forall i | 0 <= i < |addrs| ensures FitsIn(caps, addrs, items, nodes2, i) {
      assert FitsIn(caps, addrs, items, nodes, i) && addrs[i] in addrs;
    }
    FitsMore(caps, addrs, items, nodes2, a, it);
  }

  /** What these entries do not use can be freed, and more can be allocated. */
  lemma {:induction false} FitsElsewhere(caps: map<Off, nat>, caps2: map<Off, nat>, addrs: seq<Off>, items: seq<Item>,
                                         nodes: map<Off, seq<Off>>)
    requires Fits(caps, addrs, items, nodes)
    requires forall a {:trigger a in nodes} ::
      a in addrs && a in nodes ==> a in caps2 && forall x :: x in nodes[a] ==> x in caps2
    requires forall p {:trigger p in caps2} :: p in caps && p in caps2 ==> caps2[p] == caps[p]
    ensures Fits(caps2, addrs, items, nodes)
  {
    forall i | 0 <= i < |addrs| ensures FitsIn(caps2, addrs, items, nodes, i) {
      assert FitsIn(caps, addrs, items, nodes, i) && addrs[i] in addrs;
      var ns := nodes[addrs[i]];
      if items[i].value.List? {
        forall j | 0 <= j < |ns| ensures ns[j] in caps2 &&
          NodeBytes(items[i].value.elems[j]) <= caps2[ns[j]] { assert ns[j] in ns; }
      }
    }
  }

  lemma {:induction false} FitsFewer(caps: map<Off, nat>, caps2: map<Off, nat>, h: Off, addrs: seq<Off>,
                                     items: seq<Item>, nodes: map<Off, seq<Off>>)
    requires Fits(caps, addrs, items, nodes) && Fewer(caps2, caps) && Sep(h, addrs, nodes) &&
      caps2.Keys == Footprint(h, addrs, nodes)
    ensures Fits(caps2, addrs, items, nodes) && h in caps && h in caps2 && caps2[h] == caps[h]
  {
    forall a | a in addrs ensures a in caps2 && forall x :: x in nodes[a] ==> x in caps2 {
      InFootprint(h, addrs, nodes, a);
      forall x | x in nodes[a] ensures x in caps2 {
        InFootprint(h, addrs, nodes, x);
        assert x in Footprint(h, addrs, nodes);
      }
    }
    InFootprint(h, addrs, nodes, h);
    assert h in Footprint(h, addrs, nodes);
    FitsElsewhere(caps, caps2, addrs, items, nodes);
  }

  lemma {:induction false} FitsTaken(caps: map<Off, nat>, caps2: map<Off, nat>, h: Off, addrs: seq<Off>,
                                     items: seq<Item>, nodes: map<Off, seq<Off>>)
    requires Fits(caps, addrs, items, nodes) && Sep(h, addrs, nodes) && caps.Keys == Footprint(h, addrs, nodes) &&
      Fewer(caps, caps2)
    ensures Fits(caps2, addrs, items, nodes) && h in caps && h in caps2 && caps2[h] == caps[h]
  {
    forall a | a in addrs ensures a in caps2 && forall x :: x in nodes[a] ==> x in caps2 {
      InFootprint(h, addrs, nodes, a);
      assert a in caps;
      forall x | x in nodes[a] ensures x in caps2 { InFootprint(h, addrs, nodes, x); assert x in caps; }
    }
    InFootprint(h, addrs, nodes, h);
    assert h in Footprint(h, addrs, nodes);
    FitsElsewhere(caps, caps2, addrs, items, nodes);
  }

  lemma {:induction false} FewerMore(live: map<Off, nat>, a: Off, c: nat)
    requires a !in live
    ensures Fewer(live, live[a := c]) && live[a := c].Keys - {a} == live.Keys
  {
  }

  lemma {:induction false} FewerWithout(live: map<Off, nat>, few: map<Off, nat>, a: Off)
    requires few == live - {a}
    ensures Fewer(few, live)
  {
  }

  /** The elements of the most recent list are gone. */
  lemma {:induction false} FitsEmptied(caps: map<Off, nat>, addrs: seq<Off>, items: seq<Item>,
                                       nodes: map<Off, seq<Off>>)
    requires Fits(caps, addrs, items, nodes) && addrs != [] && NoDup(addrs) && items != [] && items[0].value.List?
    ensures Fits(caps, addrs, items[0 := items[0].(value := List([]), expires := 0)], nodes[addrs[0] := []])
  {
    FitsHead(caps, addrs, items, nodes, 0);
    hide Fits;
    FitsSet(caps, addrs, items, nodes, 0, items[0].(value := List([]), expires := 0), []);
  }
}
