/** The shared dictionary (src/mps_shdict.c) on the slab pool, the red-black index and the
    recency queue. */
module Dict {
  import opened RbShape
  import opened NgxString
  import opened RbOrder
  import opened Seqs
  import opened Queue
  import opened DictState
  import opened DictRoom
  import opened DictSpec
  import Slab
  import SlabLive
  import SlabRoom
  import SlabSpans
  import RbTree

  class Dict {
    /** ngx_murmur_hash2, of which nothing is assumed. */
    const hash: Hash
    /** The allocation that holds the tree header, its sentinel and the queue head. */
    const header: Off
    /** The bytes of that allocation. */
    ghost const headerBytes: nat
    const pool: Slab.Pool
    const tree: RbTree.RbTree
    /** The queue links of entries, and those of list heads and list elements. */
    const lru: Queues
    const deq: Queues
    var sd: map<Off, Entry>
    var ln: map<Off, LNode>
    ghost var addrs: seq<Off>
    /** The dictionary: its items, the most recent one first. */
    ghost var items: seq<Item>
    ghost var nodes: map<Off, seq<Off>>

    /** mps_shdict_on_init, once the header is allocated. */
    constructor (hash: Hash, pool: Slab.Pool, header: Off)
      requires pool.Valid() && pool.live.Keys == {header} && TREE_BYTES <= pool.live[header]
      ensures Valid() && items == [] && this.pool == pool && this.hash == hash && this.header == header
      ensures headerBytes == pool.live[header]
      ensures fresh(tree) && fresh(lru) && fresh(deq)
    {
      this.hash := hash;
      this.pool := pool;
      this.header := header;
      headerBytes := pool.live[header];
      tree := new RbTree.RbTree(map[header := Link(0, 0, 0, false)], header, Luadict);
      lru := new Queues();
      deq := new Queues();
      sd := map[];
      ln := map[];
      addrs := [];
      items := [];
      nodes := map[];
      new;
      hide Slab.Pool.Valid, RbTree.RbTree.Valid, Ring;
      lru.Init(header);
      EmptyOk(hash, Now());
    }

    ghost function Now(): Snap
      reads this, pool, tree, lru, deq
    {
      Snap(header, addrs, items, nodes, tree.payload, Inorder(tree.tree), sd, ln, lru.q, deq.q, pool.live.Keys)
    }

    /** What is allocated, and for what. */
    ghost function Memory(): Space
      reads this, pool
    {
      Space(pool.geo, pool.live, header, addrs, nodes)
    }

    /** Nothing has been allocated since. */
    ghost predicate Inside(sp: Space)
      reads this, pool
    {
      sp.g == pool.geo && sp.h == header && sp.nodes == nodes && Fewer(pool.live, sp.live)
    }

    /** Everything that holds between the steps of an operation; a list may be empty. */
    ghost predicate Linked()
      reads this, pool, pool.desc, pool.stats, tree, lru, deq
    {
      lru != deq && pool.Valid() && tree.Valid() && tree.insert == Luadict && tree.sentinel == header &&
      Elems(tree.tree) == Members(addrs) && SnapOk(hash, Now()) && Fits(pool.live, addrs, items, nodes) && HeaderOk()
    }

    ghost predicate HeaderOk()
      reads pool
    {
      header in pool.live && pool.live[header] == headerBytes && TREE_BYTES <= headerBytes
    }

    /** Everything that holds between calls. */
    ghost predicate Valid()
      reads this, pool, pool.desc, pool.stats, tree, lru, deq
    {
      Linked() && NoneEmpty(items)
    }

    /** The member at position `k` of the recency queue comes first. */
    method Relink(a: Off, ghost k: nat)
      requires Ring(lru.q, header, addrs) && k < |addrs| && addrs[k] == a && a !in Dropped(addrs, k) && a != header
      modifies lru
      ensures Ring(lru.q, header, [a] + Dropped(addrs, k))
    {
      hide Ring, Dropped;
      lru.Remove(a, header, addrs, k);
      lru.InsertHead(header, a, Dropped(addrs, k));
    }

    /** The entry at position `k` becomes the most recent one. */
    method Touch(a: Off, ghost k: nat)
      requires Linked() && k < |addrs| && addrs[k] == a
      modifies this`addrs, this`items, lru
      ensures Linked() && addrs == Touched(old(addrs), k) && k < |old(items)| && items == Touched(old(items), k)
    {
      hide SnapOk, Ring, Elems, Members, Slab.Pool.Valid, RbTree.RbTree.Valid, Dropped, Fits;
      ghost var s := Now();
      AtFacts(hash, s, k);
      FitsTouched(pool.live, addrs, items, nodes, k);
      Relink(a, k);
      addrs := [a] + Dropped(addrs, k);
      items := [items[k]] + Dropped(items, k);
      TouchOk(hash, s, Now(), k);
      TouchedMembers(s.addrs, k);
    }

    /** An element is freed, and only then is its link to the next one read. No word of what was
        live before is written, and so none of the element itself. */
    method FreeThenRead(lq: Off) returns (next: Off)
      requires pool.Valid() && lq in pool.live && lq in deq.q
      modifies pool, pool.desc, pool.stats
      ensures pool.Valid() && pool.live == old(pool.live) - {lq} && next == deq.q[lq].next
      ensures SlabLive.ContentsKept(pool.geo, old(pool.mem), pool.mem, old(pool.live))
    {
      hide Slab.Pool.Valid, Slab.Pool.Room;
      pool.Release(lq);
      next := deq.q[lq].next;
    }

    /** The elements of the list at `a` are freed. */
    method FreeNodes(a: Off, ghost ns: seq<Off>)
      requires pool.Valid() && Chain(deq.q, a, ns, pool.live.Keys)
      modifies pool, pool.desc, pool.stats
      ensures pool.Valid() && pool.live.Keys == old(pool.live.Keys) - Members(ns) && Fewer(pool.live, old(pool.live))
      ensures SlabLive.ContentsKept(pool.geo, old(pool.mem), pool.mem, pool.live)
    {
      hide Members, Slab.Pool.Valid;
      NoneTaken(ns);
      SlabLive.SameContents(pool.geo, pool.mem, pool.live);
      var lq := deq.q[a].next;
      ghost var i := 0;
      hide SlabLive.ContentsKept;
      while lq != a
        invariant i <= |ns| && lq == Nth(a, ns, i)
        invariant pool.Valid() && pool.live.Keys == old(pool.live.Keys) - Members(ns[..i]) &&
          Fewer(pool.live, old(pool.live))
        invariant SlabLive.ContentsKept(pool.geo, old(pool.mem), pool.mem, pool.live)
        decreases |ns| - i
      {
        OneMoreTaken(ns, i);
        ghost var mem, live := pool.mem, pool.live;
        lq := FreeThenRead(lq);
        SlabLive.KeptOn(pool.geo, old(pool.mem), mem, pool.mem, live, pool.live);
        i := i + 1;
      }
      assert ns[..i] == ns;
    }

    /** The entry leaves the recency queue and the index. */
    method Unindex(a: Off, ghost k: nat) returns (ghost i: nat)
      requires Ring(lru.q, header, addrs) && k < |addrs| && addrs[k] == a && tree.Valid() && a in Elems(tree.tree)
      modifies lru, tree
      ensures Ring(lru.q, header, Dropped(addrs, k)) && tree.Valid() && Elems(tree.tree) == old(Elems(tree.tree)) - {a}
      ensures i < |old(Inorder(tree.tree))| && old(Inorder(tree.tree))[i] == a &&
        Inorder(tree.tree) == Dropped(old(Inorder(tree.tree)), i)
      ensures a in old(tree.payload) && tree.payload == old(tree.payload)[a := old(tree.payload)[a].(key := 0)]
    {
      assert a in tree.payload;
      hide Ring, Elems, RbTree.RbTree.Valid, Dropped;
      lru.Remove(a, header, addrs, k);
      i := tree.Delete(a);
    }

    /** The entry leaves the recency queue and the index and is freed, with its list. */
    method DropEntry(a: Off, ghost k: nat)
      requires Linked() && k < |addrs| && addrs[k] == a
      modifies this`addrs, this`items, pool, pool.desc, pool.stats, lru, tree
      ensures Linked() && addrs == Dropped(old(addrs), k) && k < |old(items)| && items == Dropped(old(items), k)
      ensures a in old(nodes) && pool.live.Keys == old(pool.live.Keys) - {a} - Members(old(nodes)[a])
      ensures Fewer(pool.live, old(pool.live))
    {
      hide SnapOk, Ring, Elems, Members, Slab.Pool.Valid, RbTree.RbTree.Valid, Dropped, EntryOk, Slab.Pool.Room, Fits,
        Fewer, Sep, Footprint;
      ghost var s, caps := Now(), pool.live;
      AtFacts(hash, s, k);
      DropFacts(hash, s, k);
      FewerSame(caps);
      FitsDropped(caps, addrs, items, nodes, k);
      if sd[a].kind == TLIST {
        ListFacts(hash, s, k);
        FreeNodes(a, nodes[a]);
      }
      ghost var i := Unindex(a, k);
      ghost var live := pool.live;
      pool.Release(a);
      FewerWithout(live, pool.live, a);
      FewerTrans(pool.live, live, caps);
      addrs := Dropped(addrs, k);
      items := Dropped(items, k);
      DropOk(hash, s, Now(), k, i);
      OwnsNow(hash, Now());
      FitsFewer(caps, pool.live, header, addrs, items, nodes);
    }

    /** mps_shdict_expire. */
    method Expire(n: nat, now: uint64) returns (freed: nat)
      requires Linked() && n <= 3
      modifies this`addrs, this`items, pool, pool.desc, pool.stats, lru, tree
      ensures Linked() && freed == ExpireCount(old(items), n, now) && items == Kept(old(items), n, now)
      ensures |old(addrs)| == |old(items)| && addrs == old(addrs)[..|items|] && Fewer(pool.live, old(pool.live))
    {
      hide SnapOk, Ring, Elems, Members, Slab.Pool.Valid, RbTree.RbTree.Valid, Dropped, EntryOk, ExpireCount, Fits;
      SizeFacts(hash, Now());
      freed := 0;
      var round := n;
      while round < 3
        invariant Linked() && round == n + freed && round <= 3 && freed <= |old(items)|
        invariant items == old(items)[..|old(items)| - freed] && |addrs| == |items| && addrs == old(addrs)[..|items|]
        invariant freed + ExpireCount(items, round, now) == ExpireCount(old(items), n, now)
        invariant Fewer(pool.live, old(pool.live))
        decreases 3 - round
      {
        SizeFacts(hash, Now());
        ExpireStep(items, round, now);
        if lru.q[header].prev == header {
          return;
        }
        var q := lru.q[header].prev;
        ghost var k := |addrs| - 1;
        AtFacts(hash, Now(), k);
        if round != 0 {
          if sd[q].expires == 0 {
            return;
          }
          if Ms(sd[q].expires, now) > 0 {
            return;
          }
        }
        round := round + 1;
        DropLast(addrs);
        DropLast(items);
        DropEntry(q, k);
        freed := freed + 1;
      }
      ExpireStep(items, round, now);
    }

    /** mps_shdict_peek: the entry of a key, and its position. */
    method Peek(key: seq<byte>) returns (r: Option<Off>, ghost k: nat)
      requires Linked()
      ensures |addrs| == |items| && k == Find(items, key)
      ensures r == if Find(items, key) < |items| then Some(addrs[Find(items, key)]) else None
    {
      SizeFacts(hash, Now());
      IndexFacts(hash, Now());
      hide SnapOk, Ring, Elems, Slab.Pool.Valid, RbTree.RbTree.Valid, Ascending, EntryOk, Fits;
      var found;
      ghost var steps;
      found, steps := tree.Search(hash(key), key);
      if found.Some? {
        k := FoundAt(hash, Now(), key, found.value);
        r := Some(found.value);
      } else {
        NotFound(hash, Now(), key);
        k := |items|;
        r := None;
      }
    }

    /** mps_shdict_lookup: the entry found comes first in the recency queue. */
    method Lookup(key: seq<byte>, now: uint64) returns (rc: Rc, a: Off)
      requires Linked()
      modifies this`addrs, this`items, lru
      ensures Linked() && rc == LookupRc(old(items), key, now) && items == LookedUp(old(items), key)
      ensures rc == DECLINED <==> forall it {:trigger it in old(items)} :: it in old(items) ==> it.key != key
      ensures rc != DECLINED ==>
        items != [] && (rc == OK <==> items[0].expires == 0 || (items[0].expires - now) % WORD < HALF)
      ensures |old(addrs)| == |old(items)| && (rc == DECLINED ==> addrs == old(addrs))
      ensures rc != DECLINED ==>
        Find(old(items), key) < |old(items)| && addrs == Touched(old(addrs), Find(old(items), key))
      ensures rc != DECLINED ==>
        addrs != [] && addrs[0] == a && items != [] && items[0].key == key && a in sd &&
        sd[a].expires == items[0].expires
    {
      hide SnapOk, Ring, Elems, Slab.Pool.Valid, RbTree.RbTree.Valid, Ascending, EntryOk, Find, Dropped, NoDup, Members,
        Linked;
      ghost var k;
      var found;
      found, k := Peek(key);
      a := 0;
      if found.None? {
        forall it | it in items ensures it.key != key { assert exists i :: 0 <= i < |items| && items[i] == it; }
        return DECLINED, a;
      }
      a := found.value;
      assert items[k] in items && items[k].key == key;
      IsSnap();
      Touch(a, k);
      IsSnap();
      AtFacts(hash, Now(), 0);
      if sd[a].expires != 0 {
        var ms := Ms(sd[a].expires, now);
        if ms < 0 {
          return DONE, a;
        }
      }
      return OK, a;
    }

    lemma {:induction false} IsSnap()
      requires Linked()
      ensures SnapOk(hash, Now()) && |items| == |addrs|
    {
      SizeFacts(hash, Now());
    }

    lemma {:induction false} IsOwner()
      requires Linked()
      ensures Sep(header, addrs, nodes) && pool.live.Keys == Footprint(header, addrs, nodes)
    {
      hide Ring, Slab.Pool.Valid, RbTree.RbTree.Valid, Elems, Fits;
      OwnsNow(hash, Now());
    }

    /** As Linked, but `a` is allocated and not in use yet. */
    ghost predicate Holding(a: Off)
      reads this, pool, pool.desc, pool.stats, tree, lru, deq
    {
      lru != deq && pool.Valid() && tree.Valid() && tree.insert == Luadict && tree.sentinel == header &&
      Elems(tree.tree) == Members(addrs) && a in pool.live && SnapOk(hash, Now().(live := pool.live.Keys - {a})) &&
      Fits(pool.live, addrs, items, nodes) && HeaderOk()
    }

    /** The pool is asked for `n` bytes. */
    method Request(n: nat) returns (a: Off)
      requires pool.Valid()
      modifies pool, pool.desc, pool.stats
      ensures pool.Valid() && (a == 0 <==> !SlabRoom.RoomIn(pool.geo, old(pool.live), n))
      ensures a == 0 ==> pool.live == old(pool.live)
      ensures a != 0 ==>
        a !in old(pool.live) && a in pool.live && pool.live == old(pool.live)[a := pool.live[a]] && n <= pool.live[a] &&
        SlabRoom.Granted(pool.geo, old(pool.live), n, a, pool.live[a])
    {
      hide Slab.Pool.Valid, Slab.Pool.Room, SlabRoom.RoomIn, SlabRoom.Granted, SlabSpans.PagesFree, SlabSpans.ChunkFree,
        SlabSpans.RightSize;
      ghost var live := pool.live;
      a := pool.Alloc(n);
      if a != 0 { SlabRoom.GrantedFacts(pool.geo, live, n, a, pool.live[a]); }
    }

    /** A chunk for a new record. */
    method Take(n: nat) returns (a: Off)
      requires Linked()
      modifies pool, pool.desc, pool.stats
      ensures a == 0 <==> !SlabRoom.RoomIn(pool.geo, old(pool.live), n)
      ensures a == 0 ==> Linked() && pool.live == old(pool.live)
      ensures a != 0 ==> Holding(a) && pool.live.Keys == old(pool.live.Keys) + {a} && a !in old(pool.live)
      ensures a != 0 ==>
        pool.live == old(pool.live)[a := pool.live[a]] && n <= pool.live[a] &&
        SlabRoom.Granted(pool.geo, old(pool.live), n, a, pool.live[a])
    {
      IsOwner();
      hide SnapOk, Ring, Elems, Slab.Pool.Valid, RbTree.RbTree.Valid, Members, SlabRoom.RoomIn, Fits, SlabRoom.Granted,
        Sep, Footprint, Fewer;
      ghost var live := pool.live;
      a := Request(n);
      if a != 0 {
        FewerMore(live, a, pool.live[a]);
        FitsTaken(live, pool.live, header, addrs, items, nodes);
      }
    }

    /** A new record is put in the index, under the name that its memory holds, and first in
        the recency queue. What the memory holds of links does not matter. */
    method Hang(a: Off, h: uint64, name: seq<byte>) returns (ghost i: nat)
      requires Ring(lru.q, header, addrs) && tree.Valid() && tree.sentinel == header && a != header && a !in addrs &&
        a !in Elems(tree.tree)
      modifies lru, tree
      ensures Ring(lru.q, header, [a] + addrs) && tree.Valid() && Elems(tree.tree) == old(Elems(tree.tree)) + {a}
      ensures i <= |old(Inorder(tree.tree))| && Inorder(tree.tree) == Inserted(old(Inorder(tree.tree)), i, a)
      ensures tree.payload == old(tree.payload)[a := Payload(h, name)]
      ensures forall k :: Splits(tree.insert, tree.payload, old(Inorder(tree.tree)), Payload(h, name), k) ==> k == i
    {
      hide Ring, Elems, RbTree.RbTree.Valid, Inserted, Splits;
      ghost var t0 := tree.tree;
      var link: Link := *;
      var qlink: QLink := *;
      tree.Place(a, link, Payload(h, name));
      i := tree.Insert(a);
      RbTree.InsertedElems(Inorder(t0), i, a, tree.tree, t0);
      RingPlace(lru.q, header, addrs, a, qlink);
      lru.Place(a, qlink);
      lru.InsertHead(header, a, addrs);
    }

    /** The record of a new entry is written and the entry is put in its place. */
    method Add(a: Off, key: seq<byte>, e: Entry, ghost it: Item)
      requires Holding(a) && Find(items, key) == |items| && it.key == key && e.keyLen == |key| &&
        e.expires == it.expires && e.flags == it.flags
      requires ValueOk(e, ln, deq.q, a, [], it.value) && FitsAt(pool.live, a, [], it)
      modifies this`sd, this`addrs, this`items, this`nodes, lru, tree
      ensures Linked() && items == [it] + old(items) && addrs == [a] + old(addrs) && nodes == old(nodes)[a := []]
      ensures sd == old(sd)[a := e]
    {
      hide SnapOk, Ring, Elems, Slab.Pool.Valid, RbTree.RbTree.Valid, Members, Find, ValueOk, Ascending, Splits,
        Inserted, Fits, FitsAt;
      ghost var s := Now().(live := pool.live.Keys - {a});
      HoldFacts(hash, s, a, key);
      FitsAdded(pool.live, addrs, items, nodes, a, it);
      sd := sd[a := e];
      ghost var i := Hang(a, hash(key), key);
      NewOrder(s.payload, tree.payload, s.order, a, i);
      addrs := [a] + addrs;
      items := [it] + items;
      nodes := nodes[a := []];
      NewMembers(s.addrs, a);
      assert Now().live == s.live + {a};
      AddOk(hash, s, Now(), a, it);
    }

    /** The value, flags and expiry of an entry are written over. */
    method Rewrite(a: Off, ghost k: nat, e: Entry, ghost it: Item)
      requires Linked() && k < |addrs| && addrs[k] == a && k < |items| && it.key == items[k].key && a in nodes
      requires e.keyLen == |it.key| && e.expires == it.expires && e.flags == it.flags &&
        ValueOk(e, ln, deq.q, a, nodes[a], it.value)
      requires FitsAt(pool.live, a, nodes[a], it)
      modifies this`sd, this`items
      ensures Linked() && items == old(items)[k := it] && sd == old(sd)[a := e]
    {
      hide SnapOk, Ring, Elems, Slab.Pool.Valid, RbTree.RbTree.Valid, Members, ValueOk, Fits, FitsAt;
      ghost var s := Now();
      AtFacts(hash, s, k);
      NodesLive(hash, s, k);
      FitsSet(pool.live, addrs, items, nodes, k, it, nodes[a]);
      sd := sd[a := e];
      items := items[k := it];
      assert nodes[a := nodes[a]] == nodes;
      SetOk(hash, s, Now(), k, it, nodes[a]);
    }

    /** There is room exactly if there is, by what was allocated, for the entries that are left. */
    lemma {:induction false} RoomNow(sp: Space, n: nat)
      requires Linked() && Inside(sp)
      ensures RoomWith(sp, addrs, n) <==> SlabRoom.RoomIn(pool.geo, pool.live, n)
    {
      assert Owns(Now());
      hide Slab.Pool.Valid, RbTree.RbTree.Valid, Ring, Elems, SlabRoom.RoomIn;
      RestIs(sp, pool.live, addrs);
    }

    /** A chunk for a new entry; for an operation that may, entries that are not expired are
        removed from the end of the recency queue until there is room. */
    method TakeForced(n: nat, safe: bool, clock: nat -> uint64, ghost sp: Space)
      returns (a: Off, forcible: bool, ghost dropped: nat)
      requires Linked() && Inside(sp)
      modifies this`addrs, this`items, pool, pool.desc, pool.stats, lru, tree
      ensures |old(addrs)| == |old(items)| &&
        dropped == (if safe then 0 else ForcedCount(sp, old(addrs), old(items), n, clock, 0))
      ensures items == old(items)[..|old(items)| - dropped] && addrs == old(addrs)[..|items|] &&
        forcible == (0 < dropped)
      ensures a != 0 <==> RoomWith(sp, addrs, n)
      ensures a != 0 ==> a in pool.live && n <= pool.live[a]
      ensures if a != 0 then Holding(a) else Linked()
    {
      hide Linked, Holding, Fewer, RoomWith, ExpireCount, SlabRoom.RoomIn, Forcing, ForcedCount;
      forcible, dropped := false, 0;
      ghost var addrs0, items0 := addrs, items;
      IsSnap();
      RoomNow(sp, n);
      ForcingStart(sp, addrs, items, n, clock);
      a := Take(n);
      if a != 0 || safe {
        return;
      }
      var i := 0;
      while i < 30
        invariant i <= 30 && a == 0 && Linked() && Inside(sp) && !RoomWith(sp, addrs, n)
        invariant Forcing(sp, addrs0, items0, addrs, items, n, clock, i, dropped)
        invariant forcible == (0 < dropped)
      {
        ghost var addrs1, items1, live := addrs, items, pool.live;
        var freed := Expire(0, clock(i));
        FewerTrans(pool.live, live, sp.live);
        ForcingStep(sp, addrs0, items0, addrs1, items1, n, clock, i, dropped, addrs, items, freed);
        if freed == 0 {
          return;
        }
        forcible := true;
        dropped := dropped + freed;
        RoomNow(sp, n);
        ForcingDone(sp, addrs0, items0, addrs, items, n, clock, i + 1, dropped);
        a := Take(n);
        if a != 0 {
          return;
        }
        i := i + 1;
      }
      ForcingDone(sp, addrs0, items0, addrs, items, n, clock, i, dropped);
    }

    /** How most operations begin: up to two expired entries are removed, then the entry is
        looked up. */
    method Begin(key: seq<byte>, clock: nat -> uint64) returns (rc: Rc, a: Off)
      requires Valid()
      modifies this`addrs, this`items, pool, pool.desc, pool.stats, lru, tree
      ensures Valid() && items == LookedUp(Kept(old(items), 1, clock(0)), key) &&
        rc == LookupRc(Kept(old(items), 1, clock(0)), key, clock(1))
      ensures rc == DECLINED ==> Find(items, key) == |items|
      ensures rc != DECLINED ==>
        addrs != [] && addrs[0] == a && items != [] && items[0].key == key && Find(items[1..], key) == |items| - 1
      ensures Inside(old(Memory())) && Looked(old(addrs), old(items), key, clock(0), addrs, rc)
    {
      hide Linked, ExpireCount, Find, Fewer, Looked, LookedUp, LookupRc, Kept, Touched;
      ghost var before, addrs0 := items, addrs;
      var freed := Expire(1, clock(0));
      ghost var mid, alive := addrs, items;
      rc, a := Lookup(key, clock(1));
      LookedAddrs(addrs0, before, key, clock(0), mid, alive, clock(1), addrs, rc);
      NoneEmptyLookedUp(before, 1, clock(0), key);
      IsSnap();
      if rc != DECLINED { FindRest(hash, Now()); }
    }

    /** A new entry for a key that has none. */
    method PutNew(key: seq<byte>, kind: nat, buf: seq<byte>, exptime: int, flags: int, safe: bool, clock: nat -> uint64,
                  ghost sp: Space)
      returns (rc: Rc, forcible: bool, ghost dropped: nat)
      requires Valid() && Find(items, key) == |items| && ScalarOk(kind, buf) && Inside(sp)
      modifies this`sd, this`addrs, this`items, this`nodes, pool, pool.desc, pool.stats, lru, tree
      ensures Valid()
      ensures NewResult(sp, old(addrs), old(items), items,
                        Item(key, Scalar(kind, buf), flags, ExpiresAt(exptime, clock(2))),
                        EntryBytes(key, |buf|), safe, clock, rc, forcible, dropped)
    {
      hide Linked, Holding, ExpireCount, Find, NoneEmpty, RoomWith, ForcedCount, Fewer;
      ghost var before := items;
      var a;
      a, forcible, dropped := TakeForced(EntryBytes(key, |buf|), safe, Later(clock), sp);
      FindPrefix(before, key, |before| - dropped);
      NoneEmptyPrefix(before, |before| - dropped);
      if a == 0 {
        return ERROR, forcible, dropped;
      }
      var expires := ExpiresAt(exptime, clock(2));
      ghost var it := Item(key, Scalar(kind, buf), flags, expires);
      NoneEmptyNew(items, it);
      Add(a, key, Entry(|key|, kind, |buf|, expires, flags, buf), it);
      rc := OK;
    }

    /** The value of the most recent entry is written over in place. */
    method Reuse(a: Off, key: seq<byte>, kind: nat, buf: seq<byte>, expires: uint64, flags: int)
      requires Valid() && addrs != [] && addrs[0] == a && items != [] && items[0].key == key && ScalarOk(kind, buf)
      requires a in sd && |buf| == sd[a].valueLen && sd[a].kind != TLIST
      modifies this`sd, this`addrs, this`items, lru
      ensures Valid() && items == [Item(key, Scalar(kind, buf), flags, expires)] + old(items)[1..]
    {
      hide Linked, NoneEmpty, Dropped;
      HeadFacts();
      NoneEmptyTouched(items, 0);
      DropFirst(items);
      DropFirst(addrs);
      NoneEmptyNew(items[1..], Item(key, Scalar(kind, buf), flags, expires));
      Touch(a, 0);
      HeadFits(0);
      Rewrite(a, 0, Entry(sd[a].keyLen, kind, |buf|, expires, flags, buf),
              Item(key, Scalar(kind, buf), flags, expires));
      assert items == [Item(key, Scalar(kind, buf), flags, expires)] + old(items)[1..];
    }

    /** The labels replace, remove and insert of mps_shdict_store. */
    method Put(found: bool, a: Off, key: seq<byte>, kind: nat, buf: Option<seq<byte>>, exptime: int, flags: int,
               safe: bool, clock: nat -> uint64, ghost sp: Space)
      returns (rc: Rc, forcible: bool, ghost dropped: nat)
      requires Valid() && (buf.Some? ==> ScalarOk(kind, buf.value)) && Inside(sp)
      requires found ==>
        addrs != [] && addrs[0] == a && items != [] && items[0].key == key && Find(items[1..], key) == |items| - 1
      requires !found ==> Find(items, key) == |items|
      modifies this`sd, this`addrs, this`items, this`nodes, pool, pool.desc, pool.stats, lru, tree
      ensures Valid()
      ensures
        var it := Item(key, Scalar(kind, if buf.Some? then buf.value else []), flags, ExpiresAt(exptime, clock(2)));
        PutResult(sp, if found then old(addrs)[1..] else old(addrs), old(items), found, items, buf, it, safe, clock, rc,
                  forcible, dropped)
    {
      hide Linked, NoneEmpty, Find, NewResult, ExpiresAt, Fewer;
      if found {
        HeadFacts();
        if buf.Some? && |buf.value| == sd[a].valueLen && sd[a].kind != TLIST {
          Reuse(a, key, kind, buf.value, ExpiresAt(exptime, clock(2)), flags);
          return OK, false, 0;
        }
        ghost var live := pool.live;
        DropHead(a);
        FewerTrans(pool.live, live, sp.live);
      }
      if buf.None? {
        return OK, false, 0;
      }
      rc, forcible, dropped := PutNew(key, kind, buf.value, exptime, flags, safe, clock, sp);
    }

    /** mps_shdict_store. `num` holds the bytes of the number, `nonzero` whether it is not 0. */
    method Store(op: StoreOp, key: seq<byte>, valueType: int, str: Option<seq<byte>>, num: seq<byte>, nonzero: bool,
                 exptime: int, flags: int, clock: nat -> uint64)
      returns (rc: Rc, forcible: bool, ghost dropped: nat)
      requires Valid() && 0 < |key| < 0x1_0000 && |num| == NUMBER_BYTES &&
        (str.Some? ==> |str.value| + |key| + ENTRY_BYTES < 0x8000_0000)
      modifies this`sd, this`addrs, this`items, this`nodes, pool, pool.desc, pool.stats, lru, tree
      ensures Valid()
      ensures
        var supported := valueType == TSTRING || valueType == TNUMBER || valueType == TBOOLEAN ||
          (valueType == TNIL && !op.add && !op.replace);
        if supported
        then StoreResult(old(Memory()), old(items), items, op, key, valueType,
                         ValueBytes(valueType, str, num, nonzero), exptime, flags, clock, rc, forcible, dropped)
        else rc == ERROR && !forcible && items == old(items)
    {
      hide Valid, Find, PutResult, Kept, Fewer;
      ghost var sp, before := Memory(), items;
      if valueType != TSTRING && valueType != TNUMBER && valueType != TBOOLEAN && valueType != TNIL {
        return ERROR, false, 0;
      }
      if valueType == TNIL && (op.add || op.replace) {
        return ERROR, false, 0;
      }
      var buf := ValueBytes(valueType, str, num, nonzero);
      var a;
      rc, a := Begin(key, clock);
      if op.replace {
        if rc == DECLINED || rc == DONE {
          return DECLINED, false, 0;
        }
      } else if op.add && rc == OK {
        return DECLINED, false, 0;
      }
      LookedOthers(sp.addrs, before, key, clock(0), addrs, rc);
      rc, forcible, dropped := Put(rc != DECLINED, a, key, valueType, buf, exptime, flags, op.safe, clock, sp);
    }

    /** The most recent entry is removed. */
    method DropHead(a: Off)
      requires Valid() && addrs != [] && addrs[0] == a
      modifies this`addrs, this`items, pool, pool.desc, pool.stats, lru, tree
      ensures Valid() && old(items) != [] && items == old(items)[1..] && addrs == old(addrs)[1..] &&
        Fewer(pool.live, old(pool.live))
    {
      hide Linked, NoneEmpty, Fewer;
      IsSnap();
      NoneEmptyTouched(items, 0);
      DropFirst(items);
      DropFirst(addrs);
      DropEntry(a, 0);
    }

    lemma {:induction false} HeadFacts()
      requires Linked() && addrs != []
      ensures |items| == |addrs| && addrs[0] in sd && addrs[0] in nodes && sd[addrs[0]].keyLen == |items[0].key|
      ensures (sd[addrs[0]].kind == TLIST <==> items[0].value.List?)
      ensures items[0].value.Scalar? ==> sd[addrs[0]].valueLen == |items[0].value.data| && nodes[addrs[0]] == []
      ensures sd[addrs[0]].expires == items[0].expires && sd[addrs[0]].flags == items[0].flags
    {
      IsSnap();
      AtFacts(hash, Now(), 0);
    }

    lemma {:induction false} HeadFits(k: nat)
      requires Linked() && k < |addrs|
      ensures |items| == |addrs| && addrs[k] in nodes && FitsAt(pool.live, addrs[k], nodes[addrs[k]], items[k])
    {
      hide SnapOk, Slab.Pool.Valid, RbTree.RbTree.Valid;
      FitsHead(pool.live, addrs, items, nodes, k);
    }

    /** mps_shdict_get. */
    method Get(key: seq<byte>, getStale: bool, now: uint64)
      returns (rc: Rc, value: Option<(nat, seq<byte>)>, flags: int, stale: bool)
      requires Valid()
      modifies this`addrs, this`items, lru
      ensures Valid() && GetResult(old(items), items, key, now, getStale, rc, value, flags, stale)
    {
      hide Linked, NoneEmpty, Find, LookupRc;
      ghost var before := items;
      NoneEmptyFound(before, key);
      var found, a := Lookup(key, now);
      value, flags, stale := None, 0, false;
      if found == DECLINED || (found == DONE && !getStale) {
        return OK, value, flags, stale;
      }
      HeadFacts();
      if sd[a].kind == TLIST {
        return ERROR, value, flags, stale;
      }
      HeadScalar();
      if sd[a].kind == TNUMBER && sd[a].valueLen != NUMBER_BYTES {
        // "bad lua number value size"
        assert false;
      }
      if sd[a].kind == TBOOLEAN && sd[a].valueLen != 1 {
        // "bad lua boolean value size"
        assert false;
      }
      if sd[a].kind != TSTRING && sd[a].kind != TNUMBER && sd[a].kind != TBOOLEAN {
        // "bad value type"
        assert false;
      }
      return OK, Some((sd[a].kind, sd[a].data)), sd[a].flags, found == DONE;
    }

    lemma {:induction false} HeadScalar()
      requires Linked() && addrs != [] && addrs[0] in sd && sd[addrs[0]].kind != TLIST
      ensures items != [] && items[0].value == Scalar(sd[addrs[0]].kind, sd[addrs[0]].data) &&
        sd[addrs[0]].flags == items[0].flags
      ensures sd[addrs[0]].valueLen == |sd[addrs[0]].data| && ScalarOk(sd[addrs[0]].kind, sd[addrs[0]].data)
    {
      hide SnapOk;
      IsSnap();
      AtFacts(hash, Now(), 0);
    }

    /** mps_shdict_get_ttl: what is left of the time to live, 0 if there is no limit. */
    method GetTtl(key: seq<byte>, now: uint64) returns (ttl: Option<int>)
      requires Valid()
      ensures TtlResult(items, key, now, ttl)
    {
      hide Linked, Find;
      ghost var k;
      var found;
      found, k := Peek(key);
      if found.None? {
        return None;
      }
      IsSnap();
      AtFacts(hash, Now(), k);
      if sd[found.value].expires == 0 {
        return Some(0);
      }
      return Some(Ms(sd[found.value].expires, now));
    }

    /** The expiry of an entry is written. */
    method PutExpires(a: Off, ghost k: nat, expires: uint64)
      requires Linked() && k < |addrs| && addrs[k] == a
      modifies this`sd, this`items
      ensures Linked() && k < |old(items)| && items == old(items)[k := old(items)[k].(expires := expires)]
    {
      hide SnapOk, Linked;
      IsSnap();
      AtFacts(hash, Now(), k);
      HeadFits(k);
      Rewrite(a, k, sd[a].(expires := expires), items[k].(expires := expires));
    }

    /** mps_shdict_set_expire. The order of recency stays as it is. */
    method SetExpire(key: seq<byte>, exptime: int, now: uint64) returns (rc: Rc)
      requires Valid()
      modifies this`sd, this`items
      ensures Valid()
      ensures SetExpireResult(old(items), items, key, exptime, now, rc)
    {
      hide Linked, Find;
      ghost var k;
      var found;
      found, k := Peek(key);
      if found.None? {
        return DECLINED;
      }
      PutExpires(found.value, k, ExpiresAt(exptime, now));
      rc := OK;
    }

    /** mps_shdict_flush_all: every item is marked as expired, up to three are removed. */
    method FlushAll(now: uint64) returns (rc: Rc)
      requires Valid()
      modifies this`sd, this`addrs, this`items, pool, pool.desc, pool.stats, lru, tree
      ensures Valid() && rc == OK && items == Kept(Flushed(old(items)), 0, now)
    {
      hide Linked, Ring, ExpireCount, Flushed;
      IsSnap();
      QueueFacts(hash, Now());
      var q := lru.q[header].next;
      ghost var k := 0;
      while q != header
        invariant Linked() && k <= |addrs| == |items| == |old(items)| && q == Nth(header, addrs, k) &&
          addrs == old(addrs)
        invariant forall j {:trigger items[j]} ::
          0 <= j < |items| ==> items[j] == if j < k then old(items)[j].(expires := 1) else old(items)[j]
        decreases |addrs| - k
      {
        PutExpires(q, k, 1);
        IsSnap();
        QueueFacts(hash, Now());
        q := lru.q[q].next;
        k := k + 1;
      }
      AllFlushed(old(items), items, header, addrs, k);
      NoneEmptyPrefix(items, |items| - ExpireCount(items, 0, now));
      var freed := Expire(0, now);
      rc := OK;
    }

    /** As Hang, with the key string written afterwards. */
    method HangUnnamed(a: Off, h: uint64, key: seq<byte>, garbage: seq<byte>)
      requires Ring(lru.q, header, addrs) && tree.Valid() && tree.sentinel == header && a != header && a !in addrs &&
        a !in Elems(tree.tree)
      requires tree.insert == Luadict && Ascending(tree.payload, Inorder(tree.tree)) && a !in Inorder(tree.tree)
      requires forall x {:trigger x in Inorder(tree.tree)} ::
        x in Inorder(tree.tree) ==> x in tree.payload && tree.payload[x] != Payload(h, key)
      requires forall x {:trigger x in Inorder(tree.tree)} :: x in Inorder(tree.tree) ==>
        (GoesLeft(Luadict, Payload(h, key), tree.payload[x]) <==>
          GoesLeft(Luadict, Payload(h, garbage), tree.payload[x]))
      modifies lru, tree
      ensures Ring(lru.q, header, [a] + addrs) && tree.Valid() && Elems(tree.tree) == old(Elems(tree.tree)) + {a}
      ensures tree.payload == old(tree.payload)[a := Payload(h, key)] && Ascending(tree.payload, Inorder(tree.tree))
      ensures forall x {:trigger x in Inorder(tree.tree)} ::
        x in Inorder(tree.tree) <==> x == a || x in old(Inorder(tree.tree))
    {
      ghost var d, s := tree.payload, Inorder(tree.tree);
      hide Ring, Elems, RbTree.RbTree.Valid, Inserted, Splits, Ascending, GoesLeft;
      ghost var i := Hang(a, h, garbage);
      RenamedOrder(d, tree.payload, s, a, i, Payload(h, key));
      tree.SetName(a, key);
    }

    /** As Add, for an entry that is put in the index before its key is written: the index sees
        what the memory held. */
    method AddUnnamed(a: Off, key: seq<byte>, garbage: seq<byte>, e: Entry, ghost it: Item)
      requires Holding(a) && Find(items, key) == |items| && it.key == key && e.keyLen == |key| &&
        e.expires == it.expires && e.flags == it.flags
      requires ValueOk(e, ln, deq.q, a, [], it.value) && SameSide(hash, items, key, garbage) &&
        FitsAt(pool.live, a, [], it)
      modifies this`sd, this`addrs, this`items, this`nodes, lru, tree
      ensures Linked() && items == [it] + old(items) && addrs == [a] + old(addrs)
    {
      hide SnapOk, Ring, Elems, Slab.Pool.Valid, RbTree.RbTree.Valid, Members, Find, ValueOk, Ascending, Splits,
        Inserted, SameSide, GoesLeft, Fits, FitsAt;
      ghost var s := Now().(live := pool.live.Keys - {a});
      HoldFacts(hash, s, a, key);
      FitsAdded(pool.live, addrs, items, nodes, a, it);
      SameSideOrder(hash, s, key, garbage);
      HangUnnamed(a, hash(key), key, garbage);
      sd := sd[a := e];
      addrs := [a] + addrs;
      items := [it] + items;
      nodes := nodes[a := []];
      NewMembers(s.addrs, a);
      assert Now().live == s.live + {a};
      AddOk(hash, s, Now(), a, it);
    }

    /** The labels insert and allocated of mps_shdict_incr. */
    method PutUnnamed(key: seq<byte>, garbage: seq<byte>, num: seq<byte>, expires: uint64, clock: nat -> uint64,
                      ghost sp: Space)
      returns (rc: Rc, forcible: bool, ghost dropped: nat)
      requires Valid() && Find(items, key) == |items| && |num| == NUMBER_BYTES && SameSide(hash, items, key, garbage) &&
        Inside(sp)
      modifies this`sd, this`addrs, this`items, this`nodes, pool, pool.desc, pool.stats, lru, tree
      ensures Valid()
      ensures NewResult(sp, old(addrs), old(items), items, Item(key, Scalar(TNUMBER, num), 0, expires),
                        EntryBytes(key, NUMBER_BYTES), false, clock, rc, forcible, dropped)
    {
      hide Linked, Holding, ExpireCount, Find, NoneEmpty, SameSide, RoomWith, ForcedCount, Fewer;
      ghost var before := items;
      var a;
      a, forcible, dropped := TakeForced(EntryBytes(key, NUMBER_BYTES), false, Later(clock), sp);
      FindPrefix(before, key, |before| - dropped);
      NoneEmptyPrefix(before, |before| - dropped);
      SameSideFewer(hash, before, items, key, garbage);
      if a == 0 {
        return ERROR, forcible, dropped;
      }
      ghost var it := Item(key, Scalar(TNUMBER, num), 0, expires);
      NoneEmptyNew(items, it);
      AddUnnamed(a, key, garbage, Entry(|key|, TNUMBER, NUMBER_BYTES, expires, 0, num), it);
      rc := OK;
    }

    /** mps_shdict_incr. Adding two numbers is a parameter; `garbage` is what the memory of a
        new entry holds where its key will be. */
    method Incr(key: seq<byte>, value: seq<byte>, hasInit: bool, init: seq<byte>, initTtl: int,
                plus: (seq<byte>, seq<byte>) -> seq<byte>, garbage: seq<byte>, clock: nat -> uint64)
      returns (rc: Rc, result: seq<byte>, forcible: bool, ghost dropped: nat)
      requires Valid() && 0 < |key| < 0x1_0000 && (forall x, y :: |plus(x, y)| == NUMBER_BYTES) &&
        SameSide(hash, items, key, garbage)
      modifies this`sd, this`addrs, this`items, this`nodes, pool, pool.desc, pool.stats, lru, tree
      ensures Valid()
      ensures IncrResult(old(Memory()), old(items), items, key, value, hasInit, init, initTtl, plus, clock, rc, result,
                         forcible, dropped)
    {
      hide Linked, Find, NoneEmpty, SameSide, Kept, NewResult, Fewer;
      ghost var sp := Memory();
      result, forcible, dropped := [], false, 0;
      ghost var before := items;
      LookedUpIn(before, 1, clock(0), key);
      var found, a := Begin(key, clock);
      LookedOthers(sp.addrs, before, key, clock(0), addrs, found);
      SameSideFewer(hash, before, items, key, garbage);
      if found != DECLINED { HeadFacts(); }
      if found == DECLINED || found == DONE {
        if !hasInit {
          return ERROR, [], false, 0;
        }
        result := plus(value, init);
        var expires := ExpiresAt(initTtl, clock(2));
        if found == DONE {
          if sd[a].valueLen == NUMBER_BYTES && sd[a].kind != TLIST {
            Reuse(a, key, TNUMBER, result, expires, 0);
            return OK, result, false, 0;
          }
          SameSideFewer(hash, items, items[1..], key, garbage);
          ghost var live := pool.live;
          DropHead(a);
          FewerTrans(pool.live, live, sp.live);
        }
        rc, forcible, dropped := PutUnnamed(key, garbage, result, expires, clock, sp);
        return;
      }
      if sd[a].kind != TNUMBER || sd[a].valueLen != NUMBER_BYTES {
        NumberFacts();
        return ERROR, [], false, 0;
      }
      HeadScalar();
      result := plus(sd[a].data, value);
      Reuse(a, key, TNUMBER, result, sd[a].expires, sd[a].flags);
      rc := OK;
    }

    lemma {:induction false} NumberFacts()
      requires Linked() && addrs != []
      ensures items != [] && addrs[0] in sd
      ensures sd[addrs[0]].kind == TNUMBER ==>
        items[0].value.Scalar? && items[0].value.kind == TNUMBER && sd[addrs[0]].valueLen == NUMBER_BYTES
      ensures items[0].value.Scalar? && items[0].value.kind == TNUMBER ==> sd[addrs[0]].kind == TNUMBER
    {
      hide SnapOk;
      IsSnap();
      AtFacts(hash, Now(), 0);
    }

    /** The elements of an expired list are freed; the entry is an empty list without expiry. */
    method Reset(a: Off)
      requires Linked() && addrs != [] && addrs[0] == a && items != [] && items[0].value.List?
      modifies this`sd, this`items, this`nodes, pool, pool.desc, pool.stats, deq
      ensures Linked() && items == [old(items)[0].(value := List([]), expires := 0)] + old(items)[1..]
      ensures nodes == old(nodes)[a := []] && Fewer(pool.live, old(pool.live))
    {
      hide SnapOk, Ring, Elems, Slab.Pool.Valid, RbTree.RbTree.Valid, Members, Chain, EntryOk, Fewer, Fits;
      IsSnap();
      ghost var s, caps := Now(), pool.live;
      AtFacts(hash, s, 0);
      ListFacts(hash, s, 0);
      ghost var it := items[0].(value := List([]), expires := 0);
      FitsEmptied(caps, addrs, items, nodes);
      sd := sd[a := sd[a].(expires := 0, valueLen := 0)];
      FreeNodes(a, nodes[a]);
      deq.Init(a);
      items := items[0 := it];
      nodes := nodes[a := []];
      assert items == [it] + s.items[1..];
      ResetOk(hash, s, Now(), a, it);
      OwnsNow(hash, Now());
      FitsFewer(caps, pool.live, header, addrs, items, nodes);
    }

    /** An element is written into the chunk `x` and linked at one end of the list at `a`. */
    method Enqueue(a: Off, x: Off, left: bool, e: Elem, ghost ns: seq<Off>)
      requires Ring(deq.q, a, ns) && x != a && x !in ns
      modifies deq, this`ln
      ensures Ring(deq.q, a, if left then [x] + ns else ns + [x]) && ln == old(ln)[x := LNode(e.kind, |e.data|, e.data)]
      ensures forall z {:trigger z in deq.q} ::
        z in old(deq.q) && z !in Cells(a, ns) && z != x ==> z in deq.q && deq.q[z] == old(deq.q)[z]
    {
      hide Ring;
      ln := ln[x := LNode(e.kind, |e.data|, e.data)];
      var qlink: QLink := *;
      RingPlace(deq.q, a, ns, x, qlink);
      deq.Place(x, qlink);
      if left {
        deq.InsertHead(a, x, ns);
      } else {
        deq.InsertTail(a, x, ns);
      }
    }

    /** The chunk `x` becomes an element of the list of the most recent entry. */
    method PushTaken(a: Off, x: Off, left: bool, e: Elem)
      requires Holding(x) && addrs != [] && addrs[0] == a && items != [] && items[0].value.List? && a in sd
      requires (e.kind == TSTRING || (e.kind == TNUMBER && |e.data| == NUMBER_BYTES)) && NodeBytes(e) <= pool.live[x]
      modifies this`sd, this`ln, this`items, this`nodes, deq
      ensures Linked() &&
        items == [old(items)[0].(value := List(Pushed(old(items)[0].value.elems, left, e)))] + old(items)[1..]
    {
      hide SnapOk, Ring, Elems, Slab.Pool.Valid, RbTree.RbTree.Valid, Members, Chain, Cells, ElemsOk, Fits;
      ghost var s := Now().(live := pool.live.Keys - {x});
      AtFacts(hash, s, 0);
      ListFacts(hash, s, 0);
      NodesLive(hash, s, 0);
      FreshElement(hash, s, x);
      ghost var ns := nodes[a];
      sd := sd[a := sd[a].(valueLen := sd[a].valueLen + 1)];
      Enqueue(a, x, left, e, ns);
      ghost var ms := if left then [x] + ns else ns + [x];
      ghost var it := items[0].(value := List(Pushed(items[0].value.elems, left, e)));
      PushedElems(s.ln, ln, ns, items[0].value.elems, x, left, e);
      FitsPushed(pool.live, addrs, items, nodes, x, left, e);
      items := items[0 := it];
      nodes := nodes[a := ms];
      assert items == [it] + s.items[1..];
      SetOk(hash, s, Now(), 0, it, ms);
    }

    /** The label push_node of mps_shdict_push_helper. */
    method PushNode(a: Off, left: bool, e: Elem) returns (ok: bool)
      requires Linked() && addrs != [] && addrs[0] == a && items != [] && items[0].value.List? && a in sd
      requires e.kind == TSTRING || (e.kind == TNUMBER && |e.data| == NUMBER_BYTES)
      modifies this`sd, this`ln, this`items, this`nodes, pool, pool.desc, pool.stats, deq
      ensures Linked() && addrs == old(addrs) && (ok <==> SlabRoom.RoomIn(pool.geo, old(pool.live), NodeBytes(e)))
      ensures ok ==>
        items == [old(items)[0].(value := List(Pushed(old(items)[0].value.elems, left, e)))] + old(items)[1..]
      ensures !ok ==> items == old(items) && sd == old(sd)
    {
      hide Linked, Holding, SlabRoom.RoomIn;
      var x := Take(NodeBytes(e));
      if x == 0 {
        return false;
      }
      PushTaken(a, x, left, e);
      ok := true;
    }

    /** The label init_list: an entry with an empty list. Its flags are not written. */
    method NewList(key: seq<byte>) returns (a: Off)
      requires Valid() && Find(items, key) == |items|
      modifies this`sd, this`addrs, this`items, this`nodes, pool, pool.desc, pool.stats, lru, tree, deq
      ensures a != 0 <==> SlabRoom.RoomIn(pool.geo, old(pool.live), ListBytes(key))
      ensures a != 0 ==>
        a in pool.live && pool.live == old(pool.live)[a := pool.live[a]] &&
        SlabRoom.Granted(pool.geo, old(pool.live), ListBytes(key), a, pool.live[a])
      ensures a == 0 ==> Valid() && items == old(items)
      ensures a != 0 ==>
        Linked() && NoneEmpty(old(items)) && addrs != [] && addrs[0] == a && a in sd && items != [] &&
        items[1..] == old(items)
      ensures a != 0 ==> items[0].key == key && items[0].value == List([]) && items[0].expires == 0
    {
      hide Linked, Holding, Find, SnapOk, Ring, NoneEmpty, SlabRoom.RoomIn, SlabRoom.Granted;
      a := Take(ListBytes(key));
      if a == 0 {
        return;
      }
      var flags: int := *;
      InitQueue(a);
      NoElems(ln);
      Add(a, key, Entry(|key|, TLIST, 0, 0, flags, []), Item(key, List([]), flags, 0));
    }

    /** mps_queue_init of a new list head. */
    method InitQueue(a: Off)
      requires Holding(a)
      modifies deq
      ensures Holding(a) && Ring(deq.q, a, [])
    {
      hide SnapOk, Ring, Elems, Slab.Pool.Valid, RbTree.RbTree.Valid, Members, Fits;
      ghost var s := Now().(live := pool.live.Keys - {a});
      deq.Init(a);
      ElsewhereOk(hash, s, Now().(live := pool.live.Keys - {a}), a);
    }

    /** The most recent entry is moved to where it is. */
    method TouchHead(a: Off)
      requires Linked() && addrs != [] && addrs[0] == a
      modifies this`addrs, this`items, lru
      ensures Linked() && addrs == old(addrs) && items == old(items)
    {
      hide Linked;
      IsSnap();
      DropFirst(items);
      DropFirst(addrs);
      Touch(a, 0);
    }

    /** An element is added to the list of the most recent entry, which goes if there is no
        memory and the list is empty. */
    method PushEnd(a: Off, left: bool, e: Elem) returns (rc: Rc, len: nat)
      requires Linked() && addrs != [] && addrs[0] == a && items != [] && items[0].value.List? && NoneEmpty(items[1..])
      requires e.kind == TSTRING || (e.kind == TNUMBER && |e.data| == NUMBER_BYTES)
      modifies this`sd, this`ln, this`addrs, this`items, this`nodes, pool, pool.desc, pool.stats, lru, tree, deq
      ensures Valid()
      ensures
        var it := old(items)[0];
        (rc == OK ==>
          len == |it.value.elems| + 1 &&
          items == [it.(value := List(Pushed(it.value.elems, left, e)))] + old(items)[1..]) &&
        (rc != OK ==> rc == ERROR && items == if it.value.elems == [] then old(items)[1..] else old(items))
      ensures rc == OK <==> SlabRoom.RoomIn(pool.geo, old(pool.live), NodeBytes(e))
    {
      hide Linked, NoneEmpty, SlabRoom.RoomIn;
      HeadFacts();
      ListLength();
      len := 0;
      ghost var before := items;
      assert before == [before[0]] + before[1..];
      NoneEmptyHead(before, left, e);
      var ok := PushNode(a, left, e);
      if !ok {
        if sd[a].valueLen == 0 {
          IsSnap();
          DropFirst(items);
          DropEntry(a, 0);
        }
        return ERROR, 0;
      }
      HeadFacts();
      ListLength();
      rc, len := OK, sd[a].valueLen;
    }

    lemma {:induction false} ListLength()
      requires Linked() && addrs != [] && items != [] && items[0].value.List?
      ensures addrs[0] in sd && sd[addrs[0]].valueLen == |items[0].value.elems|
    {
      hide SnapOk;
      IsSnap();
      AtFacts(hash, Now(), 0);
    }

    /** The entry that a push will add to comes first: the list found, an expired list emptied,
        or a new empty list where there was none or an expired value. */
    method ListFor(key: seq<byte>, found: Rc, first: Off, ghost sp: Space) returns (ok: bool, a: Off, ghost cap: nat)
      requires Valid() && (found == DECLINED ==> Find(items, key) == |items|) && Inside(sp)
      requires found == OK || found == DONE || found == DECLINED
      requires found != DECLINED ==>
        addrs != [] && addrs[0] == first && items != [] && items[0].key == key && Find(items[1..], key) == |items| - 1
      requires found == OK ==> items[0].value.List?
      modifies this`sd, this`addrs, this`items, this`nodes, pool, pool.desc, pool.stats, lru, tree, deq
      ensures !ok ==> Valid() && found != OK && items == if found == DECLINED then old(items) else old(items)[1..]
      ensures ok ==>
        Linked() && addrs != [] && addrs[0] == a && items != [] && items[0].key == key && items[0].value.List? &&
        NoneEmpty(items[1..])
      ensures ok ==> items[1..] == if found == DECLINED then old(items) else old(items)[1..]
      ensures ok && found == OK ==> items == old(items)
      ensures ok && found != OK ==> items[0].value == List([]) && items[0].expires == 0
      ensures
        if found != DECLINED && old(items)[0].value.List?
        then ok && pool.live == Rest(if found == DONE then sp.(nodes := sp.nodes[first := []]) else sp, old(addrs))
        else NewHead(sp, if found == DECLINED then old(addrs) else old(addrs)[1..], key, a, cap, ok, pool.live)
    {
      hide Linked, Find, NoneEmpty, Fewer, Rest, RoomWith, SlabRoom.RoomIn, SlabRoom.Granted;
      a, cap := first, 0;
      if found == DECLINED {
        RestNow(sp);
        RoomNow(sp, ListBytes(key));
        a := NewList(key);
        return a != 0, a, if a != 0 then pool.live[a] else 0;
      }
      HeadFacts();
      NoneEmptyTouched(items, 0);
      DropFirst(items);
      ghost var live := pool.live;
      if found == DONE && sd[a].kind != TLIST {
        DropHead(a);
        FewerTrans(pool.live, live, sp.live);
        RestNow(sp);
        RoomNow(sp, ListBytes(key));
        a := NewList(key);
        return a != 0, a, if a != 0 then pool.live[a] else 0;
      }
      ghost var sp2 := sp;
      if found == DONE {
        Reset(a);
        FewerTrans(pool.live, live, sp.live);
        sp2 := sp.(nodes := sp.nodes[a := []]);
      }
      RestNow(sp2);
      TouchHead(a);
      ok := true;
    }

    /** What is allocated now, by what was allocated. */
    lemma {:induction false} RestNow(sp: Space)
      requires Linked() && Inside(sp)
      ensures Rest(sp, addrs) == pool.live
    {
      assert Owns(Now());
      hide Slab.Pool.Valid, RbTree.RbTree.Valid, Ring, Elems;
      RestIs(sp, pool.live, addrs);
    }

    /** mps_shdict_push_helper. `rc` and `len` stand for the returned length, or NGX_ERROR; a
        new list is put in the `cap` bytes at `head`. */
    method Push(key: seq<byte>, left: bool, valueType: int, str: seq<byte>, num: seq<byte>, clock: nat -> uint64)
      returns (rc: Rc, len: nat, ghost head: Off, ghost cap: nat)
      requires Valid() && 0 < |key| < 0x1_0000 && |num| == NUMBER_BYTES && |str| + LNODE_BYTES < 0x8000_0000
      requires forall it {:trigger it in items} :: it in items && it.value.List? ==> |it.value.elems| < 0xFFFF_FFFF
      modifies this`sd, this`ln, this`addrs, this`items, this`nodes, pool, pool.desc, pool.stats, lru, tree, deq
      ensures Valid()
      ensures valueType != TSTRING && valueType != TNUMBER ==> rc == ERROR && items == old(items)
      ensures valueType == TSTRING || valueType == TNUMBER ==>
        PushResult(old(Memory()), old(items), items, key, left,
                   Elem(valueType, if valueType == TNUMBER then num else str), clock, head, cap, rc, len)
    {
      hide Linked, Find, NoneEmpty, Kept, LookedUp, Rest, RoomWith, Fewer, PushRoom, Looked, SlabRoom.Granted,
        SlabRoom.RoomIn;
      len, head, cap := 0, 0, 0;
      if valueType != TSTRING && valueType != TNUMBER {
        return ERROR, 0, 0, 0;
      }
      var e := Elem(valueType, if valueType == TNUMBER then num else str);
      ghost var sp, before := Memory(), items;
      var found, first := Begin(key, clock);
      LookedOthers(sp.addrs, before, key, clock(0), addrs, found);
      if found == OK {
        HeadFacts();
        if sd[first].kind != TLIST {
          return ERROR, 0, 0, 0;
        }
        HeadNotEmpty(items);
      }
      ghost var seen, seenAddrs := items, addrs;
      var ok, a;
      ok, a, cap := ListFor(key, found, first, sp);
      head := a;
      PushRoomIs(sp, before, found, key, e, clock(0), seenAddrs, seen, head, cap, ok, pool.live);
      if !ok {
        return ERROR, 0, head, cap;
      }
      rc, len := PushEnd(a, left, e);
    }

    /** One of several elements is taken out of the list of the most recent entry and freed. */
    method PopSome(a: Off, x: Off, ghost m: nat)
      requires Linked() && addrs != [] && addrs[0] == a && items != [] && items[0].value.List? && a in sd && a in nodes
      requires m < |nodes[a]| && nodes[a][m] == x && m < |items[0].value.elems| && 0 < sd[a].valueLen
      modifies this`sd, this`items, this`nodes, pool, pool.desc, pool.stats, deq
      ensures Linked() && addrs == old(addrs) &&
        items == [old(items)[0].(value := List(Dropped(old(items)[0].value.elems, m)))] + old(items)[1..]
    {
      hide SnapOk, Ring, Elems, Slab.Pool.Valid, RbTree.RbTree.Valid, Members, Dropped, EntryOk, Chain, Fits, Fewer;
      ghost var s, caps := Now(), pool.live;
      ListFacts(hash, s, 0);
      ElementLive(hash, s, m);
      ghost var ns, elems := nodes[a], items[0].value.elems;
      AtFacts(hash, s, 0);
      FitsPopped(caps, addrs, items, nodes, m);
      Dequeue(a, x, ns, m);
      FewerWithout(caps, pool.live, x);
      sd := sd[a := sd[a].(valueLen := sd[a].valueLen - 1)];
      items := [items[0].(value := List(Dropped(elems, m)))] + items[1..];
      nodes := nodes[a := Dropped(ns, m)];
      PoppedOk(hash, s, Now(), a, m);
      OwnsNow(hash, Now());
      FitsFewer(caps, pool.live, header, addrs, items, nodes);
    }

    /** An element leaves its list and is freed. */
    method Dequeue(a: Off, x: Off, ghost ns: seq<Off>, ghost m: nat)
      requires Ring(deq.q, a, ns) && m < |ns| && ns[m] == x && pool.Valid() && x in pool.live
      modifies pool, pool.desc, pool.stats, deq
      ensures Ring(deq.q, a, Dropped(ns, m)) && pool.Valid() && pool.live == old(pool.live) - {x}
      ensures forall z {:trigger z in deq.q} ::
        z in old(deq.q) && z != a && z !in ns ==> z in deq.q && deq.q[z] == old(deq.q)[z]
    {
      hide Ring, Slab.Pool.Valid, Dropped, Slab.Pool.Room;
      deq.Remove(x, a, ns, m);
      pool.Release(x);
    }

    /** The last element and the entry leave their queues and the index and are freed. */
    method Unlist(a: Off, x: Off) returns (ghost i: nat)
      requires Ring(lru.q, header, addrs) && addrs != [] && addrs[0] == a && tree.Valid() && a in Elems(tree.tree)
      requires Ring(deq.q, a, [x]) && pool.Valid() && x in pool.live && a in pool.live && x != a && lru != deq
      modifies pool, pool.desc, pool.stats, lru, tree, deq
      ensures pool.Valid() && pool.live == old(pool.live) - {x} - {a}
      ensures Ring(lru.q, header, Dropped(addrs, 0)) && tree.Valid() && Elems(tree.tree) == old(Elems(tree.tree)) - {a}
      ensures i < |old(Inorder(tree.tree))| && old(Inorder(tree.tree))[i] == a &&
        Inorder(tree.tree) == Dropped(old(Inorder(tree.tree)), i)
      ensures a in old(tree.payload) && tree.payload == old(tree.payload)[a := old(tree.payload)[a].(key := 0)]
      ensures forall z {:trigger z in deq.q} ::
        z in old(deq.q) && z != a && z !in [x] ==> z in deq.q && deq.q[z] == old(deq.q)[z]
    {
      hide Ring, Slab.Pool.Valid, Dropped, Elems, Inorder, RbTree.RbTree.Valid, Slab.Pool.Room;
      Dequeue(a, x, [x], 0);
      i := Unindex(a, 0);
      pool.Release(a);
    }

    /** The only element is taken out and freed, and the entry goes with it. */
    method PopLast(a: Off, x: Off)
      requires Linked() && addrs != [] && addrs[0] == a && items != [] && items[0].value.List? && a in nodes &&
        nodes[a] == [x]
      modifies this`addrs, this`items, pool, pool.desc, pool.stats, lru, tree, deq
      ensures Linked() && items == old(items)[1..]
    {
      hide SnapOk, Ring, Elems, Slab.Pool.Valid, RbTree.RbTree.Valid, Members, Dropped, EntryOk, Chain, Slab.Pool.Room,
        Fewer, Fits;
      IsSnap();
      ghost var s, caps := Now(), pool.live;
      FitsDropped(caps, addrs, items, nodes, 0);
      AtFacts(hash, s, 0);
      DropFacts(hash, s, 0);
      ListFacts(hash, s, 0);
      ElementLive(hash, s, 0);
      OneMember(x);
      ghost var i := Unlist(a, x);
      FewerWithout(caps, caps - {x}, x);
      FewerWithout(caps - {x}, pool.live, a);
      FewerTrans(pool.live, caps - {x}, caps);
      DropFirst(items);
      addrs := Dropped(addrs, 0);
      items := Dropped(items, 0);
      LastPoppedOk(hash, s, Now(), a, x, i);
      OwnsNow(hash, Now());
      FitsFewer(caps, pool.live, header, addrs, items, nodes);
    }

    /** mps_shdict_pop_helper. */
    method Pop(key: seq<byte>, left: bool, clock: nat -> uint64) returns (rc: Rc, value: Option<Elem>)
      requires Valid()
      modifies this`sd, this`addrs, this`items, this`nodes, pool, pool.desc, pool.stats, lru, tree, deq
      ensures Valid()
      ensures PopResult(old(items), items, key, left, clock, rc, value)
    {
      hide Linked, Find, NoneEmpty, Kept, LookedUp, ElemsOk;
      var found, a := Begin(key, clock);
      if found == DECLINED || found == DONE {
        return OK, None;
      }
      HeadFacts();
      if sd[a].kind != TLIST {
        return ERROR, None;
      }
      ListLength();
      HeadNotEmpty(items);
      if sd[a].valueLen <= 0 {
        // "bad empty value"
        assert false;
      }
      ghost var elems := items[0].value.elems;
      ghost var m := PopIndex(elems, left);
      PopFacts(left);
      var x := if left then deq.q[a].next else deq.q[a].prev;
      if ln[x].kind != TSTRING && ln[x].kind != TNUMBER {
        // "bad list node value type"
        assert false;
      }
      if ln[x].kind == TNUMBER && ln[x].len != NUMBER_BYTES {
        // "bad list number value size"
        assert false;
      }
      rc, value := OK, Some(Elem(ln[x].kind, ln[x].data));
      PopNone(items, m);
      if sd[a].valueLen == 1 {
        PopLast(a, x);
      } else {
        PopSome(a, x, m);
        TouchHead(a);
      }
    }

    /** The element at either end of the list of the most recent entry. */
    lemma {:induction false} PopFacts(left: bool)
      requires Linked() && addrs != [] && items != [] && items[0].value.List? && items[0].value.elems != []
      ensures
        var a, elems := addrs[0], items[0].value.elems;
        var m := PopIndex(elems, left);
        a in deq.q && a in nodes && |nodes[a]| == |elems| &&
        (if left then deq.q[a].next else deq.q[a].prev) == nodes[a][m] &&
        nodes[a][m] in ln && ln[nodes[a][m]] == LNode(elems[m].kind, |elems[m].data|, elems[m].data) &&
        (elems[m].kind == TSTRING || (elems[m].kind == TNUMBER && |elems[m].data| == NUMBER_BYTES)) &&
        (|elems| == 1 ==> nodes[a] == [nodes[a][m]])
    {
      hide SnapOk;
      IsSnap();
      AtFacts(hash, Now(), 0);
      ListFacts(hash, Now(), 0);
      var a, m := addrs[0], PopIndex(items[0].value.elems, left);
      assert ElemOk(ln, nodes[a][m], items[0].value.elems[m]);
    }

    /** mps_shdict_llen: the length of a list, 0 for a key without a live value. */
    method Llen(key: seq<byte>, clock: nat -> uint64) returns (rc: Rc, len: nat)
      requires Valid()
      modifies this`addrs, this`items, pool, pool.desc, pool.stats, lru, tree
      ensures Valid()
      ensures LlenResult(old(items), items, key, clock, rc, len)
    {
      hide Linked, Find, NoneEmpty, Kept, LookedUp, LookupRc;
      var found, a := Begin(key, clock);
      len := 0;
      if found == OK {
        HeadFacts();
        if sd[a].kind != TLIST {
          return ERROR, 0;
        }
        TouchHead(a);
        ListLength();
        return OK, sd[a].valueLen;
      }
      rc := OK;
    }

    /** No leak and no dangling entry: the live allocations are exactly the header, the entries
        and the elements of lists; index and recency queue have the same entries; no two have
        the same key; a list entry records the length of its list. */
    lemma {:induction false} NoLeak()
      requires Valid()
      ensures forall a: Off {:trigger a in addrs} :: a in addrs ==> a in nodes
      ensures pool.live.Keys == Footprint(header, addrs, nodes) && Sep(header, addrs, nodes)
      ensures Elems(tree.tree) == Members(addrs) && Ring(lru.q, header, addrs) &&
        Ascending(tree.payload, Inorder(tree.tree))
      ensures forall i, j {:trigger items[i], items[j]} :: 0 <= i < j < |items| ==> items[i].key != items[j].key
      ensures |addrs| == |items|
      ensures forall i {:trigger items[i]} :: 0 <= i < |items| && items[i].value.List? ==>
        addrs[i] in sd && addrs[i] in nodes && 0 < sd[addrs[i]].valueLen == |items[i].value.elems| == |nodes[addrs[i]]|
    {
      IsSnap();
      forall i, j | 0 <= i < j < |items| ensures items[i].key != items[j].key {
        if items[i].key == items[j].key { KeysDistinct(hash, Now(), i, j); }
      }
      forall i | 0 <= i < |items| && items[i].value.List?
        ensures addrs[i] in sd && addrs[i] in nodes &&
          0 < sd[addrs[i]].valueLen == |items[i].value.elems| == |nodes[addrs[i]]|
      {
        AtFacts(hash, Now(), i);
      }
    }

    /** In a pool too small for so many elements no list is too long for its counter. */
    lemma {:induction false} ListsShort()
      requires Valid() && pool.end < 0xFFFF_FFFF * LNODE_BYTES
      ensures forall it {:trigger it in items} :: it in items && it.value.List? ==> |it.value.elems| < 0xFFFF_FFFF
    {
      IsOwner();
      IsSnap();
      forall it | it in items && it.value.List? ensures |it.value.elems| < 0xFFFF_FFFF {
        var i :| 0 <= i < |items| && items[i] == it;
        HeadFits(i);
        hide Linked;
        ListFacts(hash, Now(), i);
        ElementsSpaced(nodes[addrs[i]], it.value.elems);
      }
    }

    /** Each element of a list has an allocation of its own. */
    lemma {:induction false} ElementsSpaced(ns: seq<Off>, elems: seq<Elem>)
      requires Valid() && NoDup(ns) && ElemsFit(pool.live, ns, elems)
      ensures |elems| * LNODE_BYTES <= pool.end
    {
      hide SnapOk, RbTree.RbTree.Valid, Fits;
      forall x | x in ns ensures x in pool.live && x + LNODE_BYTES <= pool.end {
        var j :| 0 <= j < |ns| && ns[j] == x;
        assert NodeBytes(elems[j]) <= pool.live[ns[j]];
        pool.Below(x);
      }
      forall x, y | x in ns && y in ns && x < y ensures x + LNODE_BYTES <= y {
        var j :| 0 <= j < |ns| && ns[j] == x;
        assert NodeBytes(elems[j]) <= pool.live[ns[j]];
        pool.Separate(x, y);
      }
      SpacedBelow(ns, LNODE_BYTES, pool.end);
    }

    /** Every record fits its allocation, and the allocations do not overlap: what is written to
        one record leaves the others as they are. */
    lemma {:induction false} RecordsApart(i: nat, p: Off, q: Off)
      requires Valid() && p in Footprint(header, addrs, nodes) && q in Footprint(header, addrs, nodes) && p < q
      ensures p in pool.live && p + pool.live[p] <= q && header in pool.live && TREE_BYTES <= pool.live[header]
      ensures |addrs| == |items| &&
        (i < |addrs| ==> addrs[i] in nodes && FitsAt(pool.live, addrs[i], nodes[addrs[i]], items[i]))
    {
      IsOwner();
      IsSnap();
      assert p in pool.live.Keys && q in pool.live.Keys;
      if i < |addrs| { HeadFits(i); }
      hide SnapOk, RbTree.RbTree.Valid, Fits, Footprint;
      pool.Separate(p, q);
    }
  }

  /** mps_shdict_on_init: NULL when the pool has no room for the header. */
  method OnInit(hash: Hash, pool: Slab.Pool) returns (dict: Dict?)
    requires pool.Valid() && pool.live == map[]
    modifies pool, pool.desc, pool.stats
    ensures dict == null <==> !old(pool.Room(TREE_BYTES))
    ensures pool.Valid() && (dict != null ==> dict.Valid() && dict.items == [] && dict.pool == pool)
    ensures dict != null ==>
      dict.hash == hash && pool.live == map[dict.header := dict.headerBytes] &&
      SlabRoom.Granted(pool.geo, map[], TREE_BYTES, dict.header, dict.headerBytes)
    ensures dict != null ==> fresh(dict) && fresh(dict.tree) && fresh(dict.lru) && fresh(dict.deq)
  {
    dict := null;
    var header := pool.Alloc(TREE_BYTES);
    if header != 0 {
      dict := new Dict(hash, pool, header);
    }
  }
}
