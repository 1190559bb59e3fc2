/** What the dictionary keeps in the pool: records by the address of their allocation, and
    when they agree with a sequence of items in order of recency (src/mps_shdict.h). */
module DictState {
  import opened RbShape
  import opened NgxString
  import opened RbOrder
  import opened Seqs
  import opened Queue

  const TNIL: nat := 0
  const TBOOLEAN: nat := 1
  const TNUMBER: nat := 3
  const TSTRING: nat := 4
  const TLIST: nat := 5

  /** Bytes of a Lua number. */
  const NUMBER_BYTES: nat := 8

  /** offsetof(mps_shdict_list_node_t, data). */
  const LNODE_BYTES: nat := 21

  /** sizeof(mps_queue_t). */
  const QUEUE_BYTES: nat := 16

  /** offsetof(mps_rbtree_node_t, color) + offsetof(mps_shdict_node_t, data). */
  const ENTRY_BYTES: nat := 68

  /** The size of mps_shdict_tree_t: the tree, its sentinel and the queue head. */
  const TREE_BYTES: nat := 80

  /** An element of a list. */
  datatype Elem = Elem(kind: nat, data: seq<byte>)

  datatype Value = Scalar(kind: nat, data: seq<byte>) | List(elems: seq<Elem>)

  /** An item of the abstract dictionary. */
  datatype Item = Item(key: seq<byte>, value: Value, flags: int, expires: uint64)

  /** The fields of mps_shdict_node_t; `data` is the value behind the key. */
  datatype Entry = Entry(keyLen: nat, kind: nat, valueLen: nat, expires: uint64, flags: int, data: seq<byte>)

  /** The fields of mps_shdict_list_node_t. */
  datatype LNode = LNode(kind: nat, len: nat, data: seq<byte>)

  type Hash = seq<byte> -> uint64

  /** All that is stored, with the addresses in order of recency. Of the list at an entry
      `nodes` holds the addresses of the elements. */
  datatype Snap = Snap(
    h: Off, addrs: seq<Off>, items: seq<Item>, nodes: map<Off, seq<Off>>,
    payload: map<Off, Payload>, order: seq<Off>, sd: map<Off, Entry>, ln: map<Off, LNode>,
    lq: QMem, dq: QMem, live: set<Off>)

  ghost predicate ElemOk(ln: map<Off, LNode>, x: Off, e: Elem) {
    x in ln && ln[x] == LNode(e.kind, |e.data|, e.data) &&
    (e.kind == TSTRING || (e.kind == TNUMBER && |e.data| == NUMBER_BYTES))
  }

  ghost predicate ScalarOk(kind: nat, data: seq<byte>) {
    kind == TSTRING || (kind == TNUMBER && |data| == NUMBER_BYTES) || (kind == TBOOLEAN && |data| == 1)
  }

  ghost predicate ElemsOk(ln: map<Off, LNode>, ns: seq<Off>, elems: seq<Elem>) {
    |ns| == |elems| && forall i {:trigger ns[i]} {:trigger elems[i]} :: 0 <= i < |ns| ==> ElemOk(ln, ns[i], elems[i])
  }

  /** The records at `a` hold the value. */
  ghost predicate ValueOk(e: Entry, ln: map<Off, LNode>, dq: QMem, a: Off, ns: seq<Off>, v: Value) {
    match v
    case Scalar(kind, data) => e.kind == kind && e.valueLen == |data| && e.data == data && ns == [] &&
    ScalarOk(kind, data)
    case List(elems) => e.kind == TLIST && e.valueLen == |elems| && Ring(dq, a, ns) && ElemsOk(ln, ns, elems)
  }

  /** The records at `a` hold the item. */
  ghost predicate EntryOk(hash: Hash, s: Snap, a: Off, it: Item) {
    a in s.payload && s.payload[a] == Payload(hash(it.key), it.key) && a in s.sd && a in s.nodes &&
    s.sd[a].keyLen == |it.key| && s.sd[a].expires == it.expires && s.sd[a].flags == it.flags &&
    ValueOk(s.sd[a], s.ln, s.dq, a, s.nodes[a], it.value)
  }

  /** The addresses are all different. */
  ghost predicate Sep(h: Off, addrs: seq<Off>, nodes: map<Off, seq<Off>>) {
    NoDup(addrs) && h !in addrs && (forall a :: a in addrs ==> a in nodes) &&
    (forall a, x :: a in addrs && x in nodes[a] ==> x !in addrs && x != h) &&
    forall a, b, x {:trigger x in nodes[a], x in nodes[b]} ::
      a in addrs && b in addrs && a != b && x in nodes[a] ==> x !in nodes[b]
  }

  ghost function Members(s: seq<Off>): set<Off> {
    set x | x in s
  }

  /** The header, the entries and the elements of lists. */
  ghost function Footprint(h: Off, addrs: seq<Off>, nodes: map<Off, seq<Off>>): set<Off>
    requires forall a :: a in addrs ==> a in nodes
  {
    {h} + (set a | a in addrs) + (set a, x | a in addrs && x in nodes[a] :: x)
  }

  ghost predicate SameMembers(s: seq<Off>, t: seq<Off>) {
    forall x {:trigger x in s} {:trigger x in t} :: x in s <==> x in t
  }

  /** The index holds the entries in ascending order. */
  ghost predicate IndexOk(s: Snap) {
    Ascending(s.payload, s.order) && SameMembers(s.order, s.addrs)
  }

  ghost predicate Owns(s: Snap) {
    Sep(s.h, s.addrs, s.nodes) && s.live == Footprint(s.h, s.addrs, s.nodes)
  }

  ghost predicate EntryAt(hash: Hash, s: Snap, i: int)
    requires 0 <= i < |s.addrs| && 0 <= i < |s.items|
  {
    EntryOk(hash, s, s.addrs[i], s.items[i])
  }

  ghost predicate EntriesOk(hash: Hash, s: Snap) {
    |s.items| == |s.addrs| && forall i {:trigger EntryAt(hash, s, i)} :: 0 <= i < |s.addrs| ==> EntryAt(hash, s, i)
  }

  /** Index, recency queue, lists and allocations agree with `items`. */
  ghost predicate SnapOk(hash: Hash, s: Snap) {
    Owns(s) && IndexOk(s) && EntriesOk(hash, s) && Ring(s.lq, s.h, s.addrs)
  }

  /** No list is empty. */
  ghost predicate NoneEmpty(items: seq<Item>) {
    forall i {:trigger items[i]} :: 0 <= i < |items| ==> items[i].value.List? ==> items[i].value.elems != []
  }

  /** No two items have the same key. */
  lemma {:induction false} KeysDistinct(hash: Hash, s: Snap, i: nat, j: nat)
    requires SnapOk(hash, s) && i < |s.items| && j < |s.items| && s.items[i].key == s.items[j].key
    ensures i == j
  {
    var a, b := s.addrs[i], s.addrs[j];
    assert EntryAt(hash, s, i) && EntryAt(hash, s, j);
    assert a in s.order && b in s.order;
    var m :| 0 <= m < |s.order| && s.order[m] == a;
    var n :| 0 <= n < |s.order| && s.order[n] == b;
    LuadictOrder(s.payload[a], s.payload[b], s.payload[b]);
    LuadictOrder(s.payload[b], s.payload[a], s.payload[b]);
  }

  lemma {:induction false} FootprintSame(h: Off, addrs: seq<Off>, bddrs: seq<Off>, nodes: map<Off, seq<Off>>)
    requires Sep(h, addrs, nodes) && NoDup(bddrs) && SameMembers(bddrs, addrs)
    ensures Sep(h, bddrs, nodes) && Footprint(h, bddrs, nodes) == Footprint(h, addrs, nodes)
  {
  }

  /** The entry at position `k` comes first in the recency queue. */
  lemma {:induction false} TouchOk(hash: Hash, s: Snap, t: Snap, k: nat)
    requires SnapOk(hash, s) && k < |s.addrs|
    requires t == s.(lq := t.lq, addrs := [s.addrs[k]] + Dropped(s.addrs, k),
                     items := [s.items[k]] + Dropped(s.items, k))
    requires Ring(t.lq, t.h, t.addrs)
    ensures SnapOk(hash, t)
  {
    DroppedIn(s.addrs, k);
    assert SameMembers(t.addrs, s.addrs);
    FootprintSame(s.h, s.addrs, t.addrs, s.nodes);
    hide Footprint, Sep, Ring, Ascending;
    forall i | 0 <= i < |t.addrs| ensures EntryAt(hash, t, i) {
      var j := if i == 0 then k else if i - 1 < k then i - 1 else i;
      assert t.addrs[i] == s.addrs[j] && t.items[i] == s.items[j];
      assert EntryAt(hash, s, j);
    }
  }

  lemma {:induction false} AscendingWithout(d: map<Off, Payload>, e: map<Off, Payload>, s: seq<Off>, i: nat)
    requires Ascending(d, s) && i < |s| && NoDup(s)
    requires forall x {:trigger x in e} :: x in s && x != s[i] ==> x in e && e[x] == d[x]
    ensures Ascending(e, Dropped(s, i))
    ensures forall x :: x in Dropped(s, i) <==> x in s && x != s[i]
  {
    var t := Dropped(s, i);
    assert forall j :: 0 <= j < |t| ==> t[j] == s[if j < i then j else j + 1];
    forall x | x in s && x != s[i] ensures x in t {
      var j :| 0 <= j < |s| && s[j] == x;
      assert t[if j < i then j else j - 1] == x;
    }
    forall j | 0 <= j < |t| ensures t[j] in e && e[t[j]] == d[t[j]] && t[j] != s[i] {}
  }

  lemma {:induction false} AscendingNoDup(d: map<Off, Payload>, s: seq<Off>)
    requires Ascending(d, s)
    ensures NoDup(s)
  {
    forall i, j | 0 <= i < j < |s| ensures s[i] != s[j] { LuadictOrder(d[s[i]], d[s[j]], d[s[j]]); }
  }

  lemma {:induction false} DropOwns(h: Off, addrs: seq<Off>, nodes: map<Off, seq<Off>>, k: nat)
    requires Sep(h, addrs, nodes) && k < |addrs|
    ensures Sep(h, Dropped(addrs, k), nodes) && addrs[k] in nodes
    ensures Footprint(h, Dropped(addrs, k), nodes) == Footprint(h, addrs, nodes) - {addrs[k]} - Members(nodes[addrs[k]])
  {
    DroppedIn(addrs, k);
    var a, bddrs := addrs[k], Dropped(addrs, k);
    assert a in addrs;
    assert Sep(h, bddrs, nodes);
    var left, right := Footprint(h, bddrs, nodes), Footprint(h, addrs, nodes) - {a} - Members(nodes[a]);
    forall x ensures x in left ==> x in right {
      if b :| b in bddrs && x in nodes[b] { assert b in addrs && b != a; }
    }
    forall x ensures x in right ==> x in left {
      if x in addrs { assert x in right ==> x in bddrs; }
      if b :| b in addrs && x in nodes[b] { assert x in right ==> b != a; }
    }
  }

  lemma {:induction false} DropEntries(hash: Hash, s: Snap, t: Snap, k: nat)
    requires EntriesOk(hash, s) && k < |s.addrs| && Sep(s.h, s.addrs, s.nodes)
    requires t == s.(lq := t.lq, dq := t.dq, addrs := Dropped(s.addrs, k), items := Dropped(s.items, k),
                     payload := t.payload, order := t.order, live := t.live)
    requires forall x {:trigger x in t.payload} ::
      x in s.payload && x != s.addrs[k] ==> x in t.payload && t.payload[x] == s.payload[x]
    requires s.addrs[k] in s.nodes
    requires forall x {:trigger x in t.dq} ::
      x in s.dq && x != s.addrs[k] && x !in s.nodes[s.addrs[k]] ==> x in t.dq && t.dq[x] == s.dq[x]
    ensures EntriesOk(hash, t)
  {
    var a := s.addrs[k];
    forall j | 0 <= j < |t.addrs| ensures EntryAt(hash, t, j) {
      var m := if j < k then j else j + 1;
      var b := s.addrs[m];
      assert t.addrs[j] == b && t.items[j] == s.items[m] && b != a && b in s.addrs && a in s.addrs;
      assert EntryAt(hash, s, m);
      assert b !in s.nodes[a];
      forall x | x in s.nodes[b] && x in s.dq ensures x in t.dq && t.dq[x] == s.dq[x] {
        assert x != a && x !in s.nodes[a];
      }
      EntryMoved(hash, s, t, b, s.items[m]);
    }
  }

  /** The entry at position `k` is gone with the elements of its list. */
  lemma {:induction false} DropOk(hash: Hash, s: Snap, t: Snap, k: nat, i: nat)
    requires SnapOk(hash, s) && k < |s.addrs| && i < |s.order| && s.order[i] == s.addrs[k]
    requires t == s.(lq := t.lq, dq := t.dq, addrs := Dropped(s.addrs, k), items := Dropped(s.items, k),
                     payload := t.payload,
                     order := Dropped(s.order, i), live := t.live)
    requires forall x {:trigger x in t.payload} ::
      x in s.payload && x != s.addrs[k] ==> x in t.payload && t.payload[x] == s.payload[x]
    requires s.addrs[k] in s.nodes && t.live == s.live - {s.addrs[k]} - Members(s.nodes[s.addrs[k]])
    requires forall x {:trigger x in t.dq} ::
      x in s.dq && x != s.addrs[k] && x !in s.nodes[s.addrs[k]] ==> x in t.dq && t.dq[x] == s.dq[x]
    requires Ring(t.lq, t.h, t.addrs)
    ensures SnapOk(hash, t)
  {
    DropOwns(s.h, s.addrs, s.nodes, k);
    DroppedIn(s.addrs, k);
    DropEntries(hash, s, t, k);
    AscendingNoDup(s.payload, s.order);
    hide Sep, Footprint, Ring, EntriesOk;
    assert SameMembers(s.order, s.addrs);
    forall x | x in s.order ensures x in s.payload {}
    AscendingWithout(s.payload, t.payload, s.order, i);
  }

  lemma {:induction false} InFootprint(h: Off, addrs: seq<Off>, nodes: map<Off, seq<Off>>, a: Off)
    requires forall b :: b in addrs ==> b in nodes
    ensures a in addrs ==> a in Footprint(h, addrs, nodes)
    ensures h in Footprint(h, addrs, nodes)
    ensures forall b {:trigger b in addrs} :: b in addrs && a in nodes[b] ==> a in Footprint(h, addrs, nodes)
  {
  }

  lemma {:induction false} AddOwns(h: Off, addrs: seq<Off>, nodes: map<Off, seq<Off>>, nodes2: map<Off, seq<Off>>,
                                   a: Off)
    requires Sep(h, addrs, nodes) && a !in Footprint(h, addrs, nodes) && nodes2 == nodes[a := []]
    ensures a !in addrs && Sep(h, [a] + addrs, nodes2)
    ensures Footprint(h, [a] + addrs, nodes2) == Footprint(h, addrs, nodes) + {a}
  {
    InFootprint(h, addrs, nodes, a);
    var bddrs := [a] + addrs;
    assert forall x :: x in bddrs <==> x == a || x in addrs;
    assert Sep(h, bddrs, nodes2);
    var left, right := Footprint(h, bddrs, nodes2), Footprint(h, addrs, nodes) + {a};
    forall x ensures x in left ==> x in right {
      if b :| b in bddrs && x in nodes2[b] { assert b in addrs && x in nodes[b]; }
    }
    forall x ensures x in right ==> x in left {
      if b :| b in addrs && x in nodes[b] { assert b in bddrs && x in nodes2[b]; }
    }
  }

  lemma {:induction false} AddEntries(hash: Hash, s: Snap, t: Snap, a: Off, it: Item)
    requires EntriesOk(hash, s) && a !in s.addrs && t.addrs == [a] + s.addrs && t.items == [it] + s.items &&
      EntryOk(hash, t, a, it)
    requires t.nodes == s.nodes[a := []] && t.ln == s.ln
    requires forall x {:trigger x in t.payload} ::
      x in s.payload && x != a ==> x in t.payload && t.payload[x] == s.payload[x]
    requires forall x {:trigger x in t.sd} :: x in s.sd && x != a ==> x in t.sd && t.sd[x] == s.sd[x]
    requires forall x {:trigger x in t.dq} :: x in s.dq && x != a ==> x in t.dq && t.dq[x] == s.dq[x]
    requires forall b, x {:trigger b in s.addrs, x in s.nodes[b]} ::
      b in s.addrs && b in s.nodes && x in s.nodes[b] ==> x != a
    ensures EntriesOk(hash, t)
  {
    forall j | 0 <= j < |t.addrs| ensures EntryAt(hash, t, j) {
      if j > 0 {
        var b, old_ := s.addrs[j - 1], s.items[j - 1];
        assert EntryAt(hash, s, j - 1) && b in s.addrs && t.addrs[j] == b && t.items[j] == old_;
        EntryMoved(hash, s, t, b, old_);
      }
    }
  }

  /** An entry whose records are as before. */
  lemma {:induction false} EntryMoved(hash: Hash, s: Snap, t: Snap, b: Off, it: Item)
    requires EntryOk(hash, s, b, it) && b in t.payload && t.payload[b] == s.payload[b] && b in t.sd &&
      t.sd[b] == s.sd[b]
    requires b in t.nodes && t.nodes[b] == s.nodes[b] && t.ln == s.ln
    requires b in s.dq ==> b in t.dq && t.dq[b] == s.dq[b]
    requires forall x :: x in s.nodes[b] && x in s.dq ==> x in t.dq && t.dq[x] == s.dq[x]
    ensures EntryOk(hash, t, b, it)
  {
    hide ElemsOk;
    if it.value.List? {
      RingFrame(s.dq, t.dq, b, s.nodes[b]);
    }
  }

  /** A new entry. */
  lemma {:induction false} AddOk(hash: Hash, s: Snap, t: Snap, a: Off, it: Item)
    requires SnapOk(hash, s) && a !in s.live && t.h == s.h && t.addrs == [a] + s.addrs && t.items == [it] + s.items
    requires t.nodes == s.nodes[a := []] && t.ln == s.ln && t.live == s.live + {a} && EntryOk(hash, t, a, it)
    requires forall x {:trigger x in t.payload} ::
      x in s.payload && x != a ==> x in t.payload && t.payload[x] == s.payload[x]
    requires forall x {:trigger x in t.sd} :: x in s.sd && x != a ==> x in t.sd && t.sd[x] == s.sd[x]
    requires forall x {:trigger x in t.dq} :: x in s.dq && x != a ==> x in t.dq && t.dq[x] == s.dq[x]
    requires Ascending(t.payload, t.order) &&
      (forall x {:trigger x in t.order} :: x in t.order <==> x == a || x in s.order)
    requires Ring(t.lq, t.h, t.addrs)
    ensures SnapOk(hash, t)
  {
    AddOwns(s.h, s.addrs, s.nodes, t.nodes, a);
    forall b, x | b in s.addrs && b in s.nodes &&
      x in s.nodes[b] ensures x != a { InFootprint(s.h, s.addrs, s.nodes, x); }
    hide Footprint, Sep, Ring, Ascending, EntryOk;
    AddEntries(hash, s, t, a, it);
    forall x ensures x in t.order <==> x in t.addrs { assert x in s.order <==> x in s.addrs; }
  }

  lemma {:induction false} SetOwns(h: Off, addrs: seq<Off>, nodes: map<Off, seq<Off>>, a: Off, ns: seq<Off>)
    requires Sep(h, addrs, nodes) && a in addrs
    requires forall x :: x in ns ==> x in nodes[a] || x !in Footprint(h, addrs, nodes)
    ensures Sep(h, addrs, nodes[a := ns])
    ensures Footprint(h, addrs, nodes[a := ns]) == Footprint(h, addrs, nodes) - Members(nodes[a]) + Members(ns)
  {
    var nodes2 := nodes[a := ns];
    forall x | x in ns ensures x !in addrs && x != h { InFootprint(h, addrs, nodes, x); }
    forall b, x | b in addrs && b != a && x in ns ensures x !in nodes[b] { InFootprint(h, addrs, nodes, x); }
    assert Sep(h, addrs, nodes2);
    var left, right := Footprint(h, addrs, nodes2), Footprint(h, addrs, nodes) - Members(nodes[a]) + Members(ns);
    forall x ensures x in left ==> x in right {
      if b :| b in addrs && x in nodes2[b] { assert if b == a then x in ns else x in nodes[b]; }
    }
    forall x ensures x in right ==> x in left {
      if x in ns { assert x in nodes2[a]; }
      if b :| b in addrs && x in nodes[b] { assert x !in ns && x in right ==> b != a && x in nodes2[b]; }
    }
  }

  lemma {:induction false} SetEntries(hash: Hash, s: Snap, t: Snap, k: nat, it: Item, ns: seq<Off>)
    requires EntriesOk(hash, s) && k < |s.addrs| && Sep(s.h, s.addrs, s.nodes) && t.addrs == s.addrs &&
      t.items == s.items[k := it]
    requires EntryOk(hash, t, s.addrs[k], it) && t.nodes == s.nodes[s.addrs[k] := ns] && t.payload == s.payload
    requires forall x {:trigger x in t.sd} :: x in s.sd && x != s.addrs[k] ==> x in t.sd && t.sd[x] == s.sd[x]
    requires forall x {:trigger x in t.dq} ::
      x in s.dq && x != s.addrs[k] && x !in ns && x !in s.nodes[s.addrs[k]] ==> x in t.dq && t.dq[x] == s.dq[x]
    requires forall x {:trigger x in t.ln} :: x in s.ln && x !in ns ==> x in t.ln && t.ln[x] == s.ln[x]
    requires forall x :: x in ns ==> x in s.nodes[s.addrs[k]] || x !in Footprint(s.h, s.addrs, s.nodes)
    ensures EntriesOk(hash, t)
  {
    var a := s.addrs[k];
    forall j | 0 <= j < |t.addrs| ensures EntryAt(hash, t, j) {
      if j != k {
        var b, it2 := s.addrs[j], s.items[j];
        assert EntryAt(hash, s, j) && b != a && b in s.addrs && a in s.addrs;
        InFootprint(s.h, s.addrs, s.nodes, b);
        forall x | x in s.nodes[b] ensures x != a && x !in ns &&
          x !in s.nodes[a] { InFootprint(s.h, s.addrs, s.nodes, x); }
        assert b !in ns && b !in s.nodes[a];
        EntryElsewhere(hash, s, t, b, it2);
      }
    }
  }

  lemma {:induction false} EntryElsewhere(hash: Hash, s: Snap, t: Snap, b: Off, it: Item)
    requires EntryOk(hash, s, b, it) && t.payload == s.payload && b in t.sd && t.sd[b] == s.sd[b]
    requires b in t.nodes && t.nodes[b] == s.nodes[b]
    requires b in s.dq ==> b in t.dq && t.dq[b] == s.dq[b]
    requires forall x :: x in s.nodes[b] && x in s.dq ==> x in t.dq && t.dq[x] == s.dq[x]
    requires forall x :: x in s.nodes[b] && x in s.ln ==> x in t.ln && t.ln[x] == s.ln[x]
    ensures EntryOk(hash, t, b, it)
  {
    if it.value.List? {
      RingFrame(s.dq, t.dq, b, s.nodes[b]);
      forall i | 0 <= i < |s.nodes[b]| ensures ElemOk(t.ln, t.nodes[b][i], it.value.elems[i]) {
        assert ElemOk(s.ln, s.nodes[b][i], it.value.elems[i]) && s.nodes[b][i] in s.nodes[b];
      }
    }
  }

  /** The entry at position `k` has another value, flags or expiry; the elements of its list
      are now `ns`. */
  lemma {:induction false} SetOk(hash: Hash, s: Snap, t: Snap, k: nat, it: Item, ns: seq<Off>)
    requires SnapOk(hash, s) && k < |s.addrs| && s.addrs[k] in s.nodes
    requires t == s.(items := s.items[k := it], nodes := s.nodes[s.addrs[k] := ns], sd := t.sd, ln := t.ln, dq := t.dq,
                     live := t.live)
    requires EntryOk(hash, t, s.addrs[k], it)
    requires forall x {:trigger x in t.sd} :: x in s.sd && x != s.addrs[k] ==> x in t.sd && t.sd[x] == s.sd[x]
    requires forall x {:trigger x in t.dq} ::
      x in s.dq && x != s.addrs[k] && x !in ns && x !in s.nodes[s.addrs[k]] ==> x in t.dq && t.dq[x] == s.dq[x]
    requires forall x {:trigger x in t.ln} :: x in s.ln && x !in ns ==> x in t.ln && t.ln[x] == s.ln[x]
    requires forall x :: x in ns ==> x in s.nodes[s.addrs[k]] || x !in s.live
    requires t.live == s.live - Members(s.nodes[s.addrs[k]]) + Members(ns)
    ensures SnapOk(hash, t)
  {
    assert s.addrs[k] in s.addrs;
    SetOwns(s.h, s.addrs, s.nodes, s.addrs[k], ns);
    hide Footprint, Ring, Ascending, EntryOk;
    SetEntries(hash, s, t, k, it, ns);
  }

  /** What is known of the entry at position `k`. */
  lemma {:induction false} AtFacts(hash: Hash, s: Snap, k: nat)
    requires SnapOk(hash, s) && k < |s.addrs|
    ensures |s.items| == |s.addrs| && s.addrs[k] in s.addrs && s.addrs[k] != s.h && Ring(s.lq, s.h, s.addrs)
    ensures EntryOk(hash, s, s.addrs[k], s.items[k]) && s.addrs[k] in s.sd && s.addrs[k] in s.live &&
      s.addrs[k] in s.order && s.addrs[k] in s.nodes
    ensures s.addrs[k] !in Dropped(s.addrs, k) && NoDup(s.addrs) && s.sd[s.addrs[k]].expires == s.items[k].expires
  {
    DroppedIn(s.addrs, k);
    assert EntryAt(hash, s, k);
  }

  lemma {:induction false} OwnsNow(hash: Hash, s: Snap)
    requires SnapOk(hash, s)
    ensures Sep(s.h, s.addrs, s.nodes) && s.live == Footprint(s.h, s.addrs, s.nodes)
  {
  }

  lemma {:induction false} TouchedMembers(s: seq<Off>, k: nat)
    requires k < |s|
    ensures Members([s[k]] + Dropped(s, k)) == Members(s)
  {
    forall x | x in s ensures x in [s[k]] + Dropped(s, k) {
      var j :| 0 <= j < |s| && s[j] == x;
      if j != k { InDropped(s, k, j); }
    }
  }

  /** The list at `a` can be walked from its head, and its elements are allocated. */
  ghost predicate Chain(dq: QMem, a: Off, ns: seq<Off>, live: set<Off>) {
    a in dq && dq[a].next == Nth(a, ns, 0) && NoDup(ns) && a !in ns &&
    forall i {:trigger ns[i]} :: 0 <= i < |ns| ==> ns[i] in live && ns[i] in dq && dq[ns[i]].next == Nth(a, ns, i + 1)
  }

  /** What is known of a list. */
  lemma {:induction false} ListFacts(hash: Hash, s: Snap, k: nat)
    requires SnapOk(hash, s) && k < |s.addrs| && k < |s.items| && s.items[k].value.List? && s.addrs[k] in s.nodes
    ensures Chain(s.dq, s.addrs[k], s.nodes[s.addrs[k]], s.live) && Ring(s.dq, s.addrs[k], s.nodes[s.addrs[k]])
  {
    AtFacts(hash, s, k);
    var a, ns := s.addrs[k], s.nodes[s.addrs[k]];
    RingNearAll(s.dq, a, ns);
    forall i | 0 <= i < |ns| ensures ns[i] in s.live { InFootprint(s.h, s.addrs, s.nodes, ns[i]); }
  }

  lemma {:induction false} NoMembers()
    ensures Members([]) == {}
  {
  }

  lemma {:induction false} NoneTaken(ns: seq<Off>)
    ensures Members(ns[..0]) == {}
  {
  }

  lemma {:induction false} OneMoreTaken(ns: seq<Off>, i: nat)
    requires i < |ns| && NoDup(ns)
    ensures Members(ns[..i + 1]) == Members(ns[..i]) + {ns[i]} && ns[i] !in Members(ns[..i])
  {
    assert ns[..i + 1] == ns[..i] + [ns[i]];
  }

  /** What is known of the entry at position `k` before it is dropped. */
  lemma {:induction false} DropFacts(hash: Hash, s: Snap, k: nat)
    requires SnapOk(hash, s) && k < |s.addrs| && s.addrs[k] in s.nodes && s.addrs[k] in s.sd && k < |s.items|
    ensures (s.sd[s.addrs[k]].kind == TLIST <==> s.items[k].value.List?) && s.addrs[k] !in Members(s.nodes[s.addrs[k]])
    ensures !s.items[k].value.List? ==> Members(s.nodes[s.addrs[k]]) == {}
    ensures Members(Dropped(s.addrs, k)) == Members(s.addrs) - {s.addrs[k]} && s.addrs[k] in Members(s.addrs)
  {
    AtFacts(hash, s, k);
    DroppedIn(s.addrs, k);
    assert Sep(s.h, s.addrs, s.nodes);
  }

  /** How the queue shows whether there is an entry, and the last one. */
  lemma {:induction false} SizeFacts(hash: Hash, s: Snap)
    requires SnapOk(hash, s)
    ensures |s.items| == |s.addrs| && s.h in s.lq && (s.lq[s.h].prev == s.h <==> s.addrs == [])
    ensures s.addrs != [] ==> s.lq[s.h].prev == s.addrs[|s.addrs| - 1]
  {
    if s.addrs != [] { AtFacts(hash, s, |s.addrs| - 1); }
  }

  lemma {:induction false} DropLast<T>(s: seq<T>)
    requires s != []
    ensures Dropped(s, |s| - 1) == s[..|s| - 1]
  {
  }

  lemma {:induction false} RingPlace(q: QMem, h: Off, items: seq<Off>, x: Off, l: QLink)
    requires Ring(q, h, items) && x != h && x !in items
    ensures Ring(q[x := l], h, items)
  {
    RingFrame(q, q[x := l], h, items);
  }

  lemma {:induction false} NodesLive(hash: Hash, s: Snap, k: nat)
    requires SnapOk(hash, s) && k < |s.addrs| && s.addrs[k] in s.nodes
    ensures forall x {:trigger x in s.nodes[s.addrs[k]]} :: x in s.nodes[s.addrs[k]] ==> x in s.live
    ensures s.live == s.live - Members(s.nodes[s.addrs[k]]) + Members(s.nodes[s.addrs[k]])
  {
    AtFacts(hash, s, k);
    forall x | x in s.nodes[s.addrs[k]] ensures x in s.live { InFootprint(s.h, s.addrs, s.nodes, x); }
  }

  /** Nothing is stored. */
  lemma {:induction false} EmptyOk(hash: Hash, s: Snap)
    requires s.addrs == [] && s.items == [] && s.order == [] && s.live == {s.h} && Ring(s.lq, s.h, [])
    ensures SnapOk(hash, s) && NoneEmpty(s.items) && Members(s.addrs) == {}
  {
  }
}
