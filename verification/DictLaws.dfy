/** What callers of the dictionary can rely on, for every outcome of an operation. */
module DictLaws {
  import opened RbShape
  import opened NgxString
  import opened Seqs
  import opened DictState
  import opened Queue
  import opened RbOrder
  import opened DictRoom
  import opened DictSpec
  import Powers
  import SlabLayout
  import SlabRoom

  /** An item that expiry does not touch is still there. */
  lemma {:induction false} KeptKeeps(items: seq<Item>, now: uint64, it: Item)
    requires it in items && !Due(it.expires, now)
    ensures it in Kept(items, 1, now)
  {
    ExpireSuffix(items, 1, now);
    var i :| 0 <= i < |items| && items[i] == it;
    assert Kept(items, 1, now)[i] == it;
  }

  lemma {:induction false} LookedUpKeeps(items: seq<Item>, key: seq<byte>, it: Item)
    requires it in items
    ensures it in LookedUp(items, key)
    ensures it.key != key && Find(items, key) < |items| ==>
      LookedUp(items, key) != [] && it in LookedUp(items, key)[1..]
  {
    var k := Find(items, key);
    if k < |items| {
      var i :| 0 <= i < |items| && items[i] == it;
      if i != k {
        InDropped(items, k, i);
        assert LookedUp(items, key)[1..] == Dropped(items, k);
      }
    }
  }

  /** A safe store never loses an item of another key that is not due. */
  lemma {:induction false} SafeStoreKeeps(sp: Space, old_: seq<Item>, items: seq<Item>, op: StoreOp, key: seq<byte>,
                                          kind: nat, buf: Option<seq<byte>>, exptime: int, flags: int,
                                          clock: nat -> uint64, rc: Rc, forcible: bool, dropped: nat, it: Item)
    requires StoreResult(sp, old_, items, op, key, kind, buf, exptime, flags, clock, rc, forcible, dropped) && op.safe
    requires it in old_ && it.key != key && !Due(it.expires, clock(0))
    ensures it in items && !forcible
  {
    var alive := Kept(old_, 1, clock(0));
    KeptKeeps(old_, clock(0), it);
    LookedUpKeeps(alive, key, it);
    var seen := LookedUp(alive, key);
    var rest := if LookupRc(alive, key, clock(1)) != DECLINED && seen != [] then seen[1..] else seen;
    assert it in rest;
    assert rest[..|rest| - 0] == rest;
  }

  /** A push never loses an item of another key that is not due. */
  lemma {:induction false} PushKeeps(sp: Space, old_: seq<Item>, items: seq<Item>, key: seq<byte>, left: bool, e: Elem,
                                     clock: nat -> uint64, head: Off, cap: nat, rc: Rc, len: nat, it: Item)
    requires PushResult(sp, old_, items, key, left, e, clock, head, cap, rc, len)
    requires it in old_ && it.key != key && !Due(it.expires, clock(0))
    ensures it in items
  {
    var alive := Kept(old_, 1, clock(0));
    KeptKeeps(old_, clock(0), it);
    LookedUpKeeps(alive, key, it);
  }

  /** What a successful store has written is what a lookup finds. */
  lemma {:induction false} StoredIsFound(sp: Space, old_: seq<Item>, items: seq<Item>, op: StoreOp, key: seq<byte>,
                                         kind: nat, buf: Option<seq<byte>>, exptime: int, flags: int,
                                         clock: nat -> uint64, rc: Rc, forcible: bool, dropped: nat, now: uint64)
    requires StoreResult(sp, old_, items, op, key, kind, buf, exptime, flags, clock, rc, forcible, dropped) && rc == OK
    ensures buf.Some? ==>
      Find(items, key) == 0 && items != [] && items[0].value == Scalar(kind, buf.value) && items[0].flags == flags
    ensures buf.Some? && exptime <= 0 ==> LookupRc(items, key, now) == OK
  {
    assert items != [] && items[0].key == key ==> Find(items, key) == 0;
  }

  // ---------- memory ----------

  /** Eviction by force: nothing goes while there is room; at most 90 entries go, in at most 30
      rounds; and it gives up only when all are gone or after 30 rounds. */
  lemma {:induction false} ForcedBound(sp: Space, keep: seq<Off>, rest: seq<Item>, n: nat, clock: nat -> uint64, i: nat)
    requires |keep| == |rest| && i <= 30
    ensures
      var c := ForcedCount(sp, keep, rest, n, clock, i);
      c <= 3 * (30 - i) && (0 < c ==> !RoomWith(sp, keep, n)) &&
      (RoomWith(sp, keep[..|rest| - c], n) || c == |rest| || 30 - i <= c)
    decreases 30 - i
  {
    hide RoomWith, ExpireCount, ForcedCount;
    ForcedUnfold(sp, keep, rest, n, clock, i);
    assert keep[..|rest|] == keep;
    if !(RoomWith(sp, keep, n) || i >= 30 || rest == []) {
      ExpireSuffix(rest, 0, clock(i));
      var m := |rest| - ExpireCount(rest, 0, clock(i));
      ForcedBound(sp, keep[..m], rest[..m], n, clock, i + 1);
      var c := ForcedCount(sp, keep[..m], rest[..m], n, clock, i + 1);
      assert keep[..m][..m - c] == keep[..m - c];
    }
  }

  /** It removes no more than it needs: with three entries more, at most, there was no room yet. */
  lemma {:induction false} ForcedNeeded(sp: Space, keep: seq<Off>, rest: seq<Item>, n: nat, clock: nat -> uint64,
                                        i: nat, m: nat)
    requires |keep| == |rest| && m <= |rest|
    requires
      var c := ForcedCount(sp, keep, rest, n, clock, i);
      0 < c && (m == |rest| || |rest| - c + 3 <= m)
    ensures !RoomWith(sp, keep[..m], n)
    decreases 30 - i
  {
    hide RoomWith, ExpireCount, ForcedCount;
    ForcedUnfold(sp, keep, rest, n, clock, i);
    assert keep[..|rest|] == keep;
    var left := |rest| - ExpireCount(rest, 0, clock(i));
    if m < |rest| {
      if m <= left {
        ForcedNeeded(sp, keep[..left], rest[..left], n, clock, i + 1, m);
        assert keep[..left][..m] == keep[..m];
      } else if RoomWith(sp, keep[..m], n) {
        ForcedNeeded(sp, keep[..left], rest[..left], n, clock, i + 1, left);
        assert keep[..left][..left] == keep[..left];
        RoomPrefix(sp, keep, left, m, n);
      }
    }
  }

  /** With fewer entries there is at least as much room. */
  lemma {:induction false} RoomPrefix(sp: Space, keep: seq<Off>, few: nat, many: nat, n: nat)
    requires few <= many <= |keep| && RoomWith(sp, keep[..many], n)
    ensures RoomWith(sp, keep[..few], n)
  {
    forall a | a in keep[..few] ensures a in keep[..many] {
      var j :| 0 <= j < few && keep[j] == a;
      assert keep[..many][j] == a;
    }
    SlabRoom.RoomFewer(sp.g, Rest(sp, keep[..many]), Rest(sp, keep[..few]), n);
  }

  lemma {:induction false} ForcedUnfold(sp: Space, keep: seq<Off>, rest: seq<Item>, n: nat, clock: nat -> uint64,
                                        i: nat)
    requires |keep| == |rest|
    ensures RoomWith(sp, keep, n) || i >= 30 || rest == [] ==> ForcedCount(sp, keep, rest, n, clock, i) == 0
    ensures
      var k := ExpireCount(rest, 0, clock(i));
      !(RoomWith(sp, keep, n) || i >= 30 || rest == []) ==>
        ForcedCount(sp, keep, rest, n, clock, i) == k + ForcedCount(sp, keep[..|rest| - k], rest[..|rest| - k], n,
                                                                    clock, i + 1)
  {
    hide RoomWith, ExpireCount;
  }

  /** A new entry: only without room does it fail, or cost other entries. */
  lemma {:induction false} NewMemory(sp: Space, keep: seq<Off>, rest: seq<Item>, items: seq<Item>, it: Item, n: nat,
                                     safe: bool, clock: nat -> uint64, rc: Rc, forcible: bool, dropped: nat)
    requires NewResult(sp, keep, rest, items, it, n, safe, clock, rc, forcible, dropped)
    ensures forcible || rc == ERROR ==> !RoomWith(sp, keep, n)
    ensures if safe then !forcible && (rc == ERROR <==> !RoomWith(sp, keep, n)) else rc == ERROR ==>
      items == [] || 30 <= dropped
    ensures (rc == OK || rc == ERROR) && dropped <= 90
  {
    hide RoomWith, ForcedCount;
    assert keep[..|rest|] == keep;
    ForcedBound(sp, keep, rest, n, Later(clock), 0);
  }

  /** The operation goes on to write. */
  ghost predicate Goes(op: StoreOp, found: Rc) {
    !((op.replace && found != OK) || (!op.replace && op.add && found == OK))
  }

  /** The old value is written over in place. */
  ghost predicate InPlace(seen: seq<Item>, found: Rc, len: nat) {
    found != DECLINED && seen != [] && Reusable(seen[0], len)
  }

  /** A store that goes ahead. */
  lemma {:induction false} PutMemory(sp: Space, keep: seq<Off>, seen: seq<Item>, found: Rc, items: seq<Item>,
                                     buf: Option<seq<byte>>, it: Item, safe: bool, clock: nat -> uint64, rc: Rc,
                                     forcible: bool, dropped: nat)
    requires PutResult(sp, keep, seen, found != DECLINED, items, buf, it, safe, clock, rc, forcible, dropped)
    ensures
      var short := buf.Some? && !InPlace(seen, found, |buf.value|) &&
        !RoomWith(sp, keep, EntryBytes(it.key, |buf.value|));
      (forcible || rc == ERROR ==> short) &&
      (if safe then !forcible && (rc == ERROR <==> short) else rc == ERROR ==> items == [] || 30 <= dropped)
    ensures (rc == OK || rc == ERROR) && dropped <= 90
  {
    hide RoomWith, NewResult;
    var rest := if found != DECLINED && seen != [] then seen[1..] else seen;
    if buf.Some? && !InPlace(seen, found, |buf.value|) {
      NewMemory(sp, keep, rest, items, it, EntryBytes(it.key, |buf.value|), safe, clock, rc, forcible, dropped);
    }
  }

  /** Memory shortage, and nothing else, makes a store fail or remove entries by force: no room
      for the new entry when only the others are kept. */
  lemma {:induction false} StoreMemory(sp: Space, old_: seq<Item>, items: seq<Item>, op: StoreOp, key: seq<byte>,
                                       kind: nat, buf: Option<seq<byte>>, exptime: int, flags: int,
                                       clock: nat -> uint64, rc: Rc, forcible: bool, dropped: nat)
    requires StoreResult(sp, old_, items, op, key, kind, buf, exptime, flags, clock, rc, forcible, dropped) &&
      |sp.addrs| == |old_|
    ensures
      var alive, keep := Kept(old_, 1, clock(0)), Others(sp.addrs, old_, key, clock(0));
      var found, seen := LookupRc(alive, key, clock(1)), LookedUp(alive, key);
      var short := buf.Some? && !InPlace(seen, found, |buf.value|) && !RoomWith(sp, keep, EntryBytes(key, |buf.value|));
      (rc == DECLINED <==> !Goes(op, found)) && (forcible || rc == ERROR ==> Goes(op, found) && short) &&
      (op.safe ==> !forcible && (rc == ERROR <==> Goes(op, found) && short))
    ensures rc == ERROR && !op.safe ==> items == [] || 30 <= dropped
    ensures dropped <= 90
  {
    var alive, keep := Kept(old_, 1, clock(0)), Others(sp.addrs, old_, key, clock(0));
    var found, seen := LookupRc(alive, key, clock(1)), LookedUp(alive, key);
    hide Kept, Find, RoomWith, PutResult, LookedUp, LookupRc, Others, InPlace;
    if Goes(op, found) {
      var it := Item(key, Scalar(kind, if buf.Some? then buf.value else []), flags, ExpiresAt(exptime, clock(2)));
      PutMemory(sp, keep, seen, found, items, buf, it, op.safe, clock, rc, forcible, dropped);
    }
  }

  /** Room before the call is enough: then a store does not fail and evicts nothing. */
  lemma {:induction false} StoreEnough(sp: Space, old_: seq<Item>, items: seq<Item>, op: StoreOp, key: seq<byte>,
                                       kind: nat, buf: Option<seq<byte>>, exptime: int, flags: int,
                                       clock: nat -> uint64, rc: Rc, forcible: bool, dropped: nat)
    requires StoreResult(sp, old_, items, op, key, kind, buf, exptime, flags, clock, rc, forcible, dropped)
    requires buf.Some? ==> SlabRoom.RoomIn(sp.g, sp.live, EntryBytes(key, |buf.value|))
    ensures rc != ERROR && !forcible
  {
    if buf.Some? { RoomStays(sp, Others(sp.addrs, old_, key, clock(0)), EntryBytes(key, |buf.value|)); }
    StoreMemory(sp, old_, items, op, key, kind, buf, exptime, flags, clock, rc, forcible, dropped);
  }

  /** The same for an incr that makes a new entry. */
  lemma {:induction false} IncrMemory(sp: Space, old_: seq<Item>, items: seq<Item>, key: seq<byte>, value: seq<byte>,
                                      hasInit: bool, init: seq<byte>, initTtl: int,
                                      plus: (seq<byte>, seq<byte>) -> seq<byte>, clock: nat -> uint64, rc: Rc,
                                      result: seq<byte>, forcible: bool, dropped: nat)
    requires IncrResult(sp, old_, items, key, value, hasInit, init, initTtl, plus, clock, rc, result, forcible, dropped)
    requires hasInit && LookupRc(Kept(old_, 1, clock(0)), key, clock(1)) != OK
    ensures
      var alive, keep, n := Kept(old_, 1, clock(0)), Others(sp.addrs, old_, key, clock(0)), |plus(value, init)|;
      (forcible || rc == ERROR ==>
        !InPlace(LookedUp(alive, key), LookupRc(alive, key, clock(1)), n) && !RoomWith(sp, keep, EntryBytes(key, n)) &&
        !SlabRoom.RoomIn(sp.g, sp.live, EntryBytes(key, n))) &&
      (rc == OK || rc == ERROR)
    ensures rc == ERROR ==> items == [] || 30 <= dropped
  {
    var alive, keep, num := Kept(old_, 1, clock(0)), Others(sp.addrs, old_, key, clock(0)), plus(value, init);
    var it := Item(key, Scalar(TNUMBER, num), 0, ExpiresAt(initTtl, clock(2)));
    hide Kept, Find, RoomWith, PutResult, LookedUp, Others, InPlace, SlabRoom.RoomIn;
    PutMemory(sp, keep, LookedUp(alive, key), LookupRc(alive, key, clock(1)), items, Some(num), it, false, clock, rc,
              forcible, dropped);
    if SlabRoom.RoomIn(sp.g, sp.live, EntryBytes(key, |num|)) { RoomStays(sp, keep, EntryBytes(key, |num|)); }
  }

  /** A push fails exactly if the live value is no list or there is no room; for a key that has
      a list, room for the element before the call is enough. */
  lemma {:induction false} PushMemory(sp: Space, old_: seq<Item>, items: seq<Item>, key: seq<byte>, left: bool, e: Elem,
                                      clock: nat -> uint64, head: Off, cap: nat, rc: Rc, len: nat)
    requires PushResult(sp, old_, items, key, left, e, clock, head, cap, rc, len)
    ensures
      var found, list := LookupRc(Kept(old_, 1, clock(0)), key, clock(1)), HasList(old_, key, clock(0));
      |sp.addrs| == |old_| && (rc == OK || rc == ERROR) &&
      (rc == ERROR <==> (found == OK && !list) || !PushRoom(sp, old_, found, key, e, clock(0), head, cap)) &&
      (list && SlabRoom.RoomIn(sp.g, sp.live, NodeBytes(e)) ==> rc == OK)
  {
    var alive := Kept(old_, 1, clock(0));
    var k, found := Find(alive, key), LookupRc(alive, key, clock(1));
    hide Kept, Find, RoomWith;
    if HasList(old_, key, clock(0)) && SlabRoom.RoomIn(sp.g, sp.live, NodeBytes(e)) {
      var mine := sp.addrs[..|alive|];
      RoomStays(if found == DONE then sp.(nodes := sp.nodes[mine[k] := []]) else sp, mine, NodeBytes(e));
    }
  }

  /** For a key without a list a page without allocations, and another that offers a chunk for the
      entry, are enough, if entry and element take at most half a page each. */
  lemma {:induction false} PushEnough(sp: Space, old_: seq<Item>, items: seq<Item>, key: seq<byte>, left: bool, e: Elem,
                                      clock: nat -> uint64, head: Off, cap: nat, rc: Rc, len: nat, i: nat, shift: nat,
                                      t: nat)
    requires PushResult(sp, old_, items, key, left, e, clock, head, cap, rc, len)
    requires SlabLayout.GeometryOk(sp.g) && SlabRoom.Positive(sp.live)
    requires i != t && SlabRoom.Clear(sp.g, sp.live, i) && SlabLayout.IsClass(sp.g, ListBytes(key), shift) &&
      SlabRoom.Offers(sp.g, sp.live, shift, t)
    requires ListBytes(key) <= SlabLayout.PageSize(sp.g) / 2 && NodeBytes(e) <= SlabLayout.PageSize(sp.g) / 2
    ensures
      var found := LookupRc(Kept(old_, 1, clock(0)), key, clock(1));
      rc == OK || (found == OK && !HasList(old_, key, clock(0)))
  {
    PushMemory(sp, old_, items, key, left, e, clock, head, cap, rc, len);
    var keep := Others(sp.addrs, old_, key, clock(0));
    var rest := Rest(sp, keep);
    hide SlabRoom.RoomIn, SlabRoom.Granted, Kept, Find, SlabRoom.Touches, SlabLayout.GeometryOk, SlabLayout.PageSize,
      SlabLayout.IsClass;
    assert SlabRoom.Clear(sp.g, rest, i) && SlabRoom.Positive(rest) && SlabRoom.Offers(sp.g, rest, shift, t);
    SlabRoom.ClearIsRoom(sp.g, sp.live, NodeBytes(e), i);
    SlabRoom.ClearIsRoom(sp.g, rest, ListBytes(key), i);
    hide Rest, SlabRoom.Clear, SlabRoom.Offers, Others;
    if LookupRc(Kept(old_, 1, clock(0)), key, clock(1)) != OK && !HasList(old_, key, clock(0)) {
      SlabRoom.RoomForTwo(sp.g, rest, ListBytes(key), head, cap, NodeBytes(e), i, shift, t);
    }
  }

  /** Some page with allocations offers a chunk for the request. */
  ghost predicate UsedPage(g: SlabLayout.Geometry, live: map<Off, nat>, size: nat) {
    exists shift: nat :: SlabLayout.IsClass(g, size, shift) && !SlabRoom.OnlyClear(g, live, shift)
  }

  /** The same items, but for the flags of the first one, which a push does not write. */
  ghost predicate SameButFlags(items: seq<Item>, items2: seq<Item>) {
    |items| == |items2| &&
    (items != [] ==> items[0].(flags := 0) == items2[0].(flags := 0) && items[1..] == items2[1..])
  }

  /** The outcome of a push is fixed by the items, the clock and what is allocated, wherever the
      pool puts a new list: if entry and element take at most half a page each; or if the entry
      does, and some page with other allocations offers a chunk for it. */
  lemma {:induction false} PushDetermined(sp: Space, old_: seq<Item>, key: seq<byte>, left: bool, e: Elem,
                                          clock: nat -> uint64, items: seq<Item>, head: Off, cap: nat, rc: Rc, len: nat,
                                          items2: seq<Item>, head2: Off, cap2: nat, rc2: Rc, len2: nat)
    requires PushResult(sp, old_, items, key, left, e, clock, head, cap, rc, len)
    requires PushResult(sp, old_, items2, key, left, e, clock, head2, cap2, rc2, len2)
    requires SlabLayout.GeometryOk(sp.g) && SlabRoom.Positive(sp.live)
    requires ListBytes(key) <= SlabLayout.PageSize(sp.g) / 2
    requires NodeBytes(e) <= SlabLayout.PageSize(sp.g) / 2 ||
      UsedPage(sp.g, Rest(sp, Others(sp.addrs, old_, key, clock(0))), ListBytes(key))
    ensures rc == rc2 && (rc == OK ==> len == len2) && SameButFlags(items, items2)
  {
    var keep := Others(sp.addrs, old_, key, clock(0));
    var rest := Rest(sp, keep);
    assert SlabRoom.Positive(rest);
    hide SlabRoom.RoomIn, SlabRoom.Granted, Kept, Find, SlabLayout.GeometryOk, SlabLayout.PageSize, SlabLayout.IsClass,
      SlabRoom.OnlyClear, Rest, Others, LookupRc, LookedUp, SlabRoom.Positive;
    if LookupRc(Kept(old_, 1, clock(0)), key, clock(1)) != OK && !HasList(old_, key, clock(0)) &&
      RoomWith(sp, keep, ListBytes(key))
    {
      SlabRoom.SamePlace(sp.g, rest, ListBytes(key), head, cap, head2, cap2, NodeBytes(e));
    }
    hide SlabRoom.RoomIn, RoomWith, HeadTaken;
  }

  // ---------- what a safe store does to the value of its own key ----------

  ghost predicate KeysApart(items: seq<Item>) {
    forall i, j {:trigger items[i], items[j]} :: 0 <= i < j < |items| ==> items[i].key != items[j].key
  }

  /** Without the item of a key there is none of that key. */
  lemma {:induction false} NoOther(items: seq<Item>, k: nat)
    requires KeysApart(items) && k < |items|
    ensures Find(Dropped(items, k), items[k].key) == |items| - 1 && items[k] !in Dropped(items, k)
  {
    var rest := Dropped(items, k);
    forall i | 0 <= i < |rest| ensures rest[i].key != items[k].key {
      assert rest[i] == items[if i < k then i else i + 1];
    }
    FindNone(rest, items[k].key);
  }

  /** What a store of any kind makes of an item in front, when no other one has its key. */
  lemma {:induction false} OwnNew(rest: seq<Item>, items: seq<Item>, it: Item, rc: Rc)
    requires Find(rest, it.key) == |rest| && items == (if rc == OK then [it] else []) + rest
    ensures
      if rc == OK then items != [] && items[0] == it && Find(items, it.key) == 0
      else Find(items, it.key) == |items|
    ensures forall x: Item {:trigger x in items} :: x.key == it.key ==> (x in items <==> rc == OK && x == it)
  {
    if rc != OK { assert items == rest; }
    forall x | x in rest ensures x.key != it.key {}
  }

  /** The old value of a live key survives a safe store exactly if the store is an add, or
      writes the same item again. A safe_set overwrites it exactly if it succeeds; and if it
      fails, which it does exactly when the value has another length and there is no room, the
      key is gone. The key is gone as well after a set of no value. */
  lemma {:induction false} SafeStoreOwn(sp: Space, old_: seq<Item>, items: seq<Item>, op: StoreOp, key: seq<byte>,
                                        kind: nat, buf: Option<seq<byte>>, exptime: int, flags: int,
                                        clock: nat -> uint64, rc: Rc, forcible: bool, dropped: nat)
    requires StoreResult(sp, old_, items, op, key, kind, buf, exptime, flags, clock, rc, forcible, dropped) && op.safe
    requires KeysApart(old_) && LookupRc(Kept(old_, 1, clock(0)), key, clock(1)) == OK
    ensures
      var alive, keep := Kept(old_, 1, clock(0)), Others(sp.addrs, old_, key, clock(0));
      var mine := alive[Find(alive, key)];
      var it := Item(key, Scalar(kind, if buf.Some? then buf.value else []), flags, ExpiresAt(exptime, clock(2)));
      var room := buf.Some? && (Reusable(mine, |buf.value|) || RoomWith(sp, keep, EntryBytes(key, |buf.value|)));
      (mine in items <==> !Goes(op, OK) || (buf.Some? && it == mine)) &&
      (Goes(op, OK) && buf.Some? ==> (rc == OK <==> room) && (rc == OK <==> items != [] && items[0] == it)) &&
      (Find(items, key) == |items| <==> Goes(op, OK) && !room)
  {
    var alive, keep := Kept(old_, 1, clock(0)), Others(sp.addrs, old_, key, clock(0));
    var k := Find(alive, key);
    NoOther(alive, k);
    var seen := LookedUp(alive, key);
    assert seen[0] == alive[k] && seen[1..] == Dropped(alive, k);
    var it := Item(key, Scalar(kind, if buf.Some? then buf.value else []), flags, ExpiresAt(exptime, clock(2)));
    hide Find, RoomWith, Kept, Others, PutResult, Dropped;
    if Goes(op, OK) {
      PutOwn(sp, keep, seen, items, buf, it, clock, rc, forcible, dropped);
    } else {
      Front(seen);
    }
  }

  lemma {:induction false} PutOwn(sp: Space, keep: seq<Off>, seen: seq<Item>, items: seq<Item>, buf: Option<seq<byte>>,
                                  it: Item, clock: nat -> uint64, rc: Rc, forcible: bool, dropped: nat)
    requires PutResult(sp, keep, seen, true, items, buf, it, true, clock, rc, forcible, dropped)
    requires seen != [] && seen[0].key == it.key && Find(seen[1..], it.key) == |seen| - 1
    requires it.value.Scalar? && (buf.Some? ==> it.value.data == buf.value)
    ensures
      var mine := seen[0];
      var room := buf.Some? && (Reusable(mine, |buf.value|) || RoomWith(sp, keep, EntryBytes(it.key, |buf.value|)));
      (mine in items <==> buf.Some? && it == mine) && (rc == OK || rc == ERROR) &&
      (buf.Some? ==> (rc == OK <==> room) && (rc == OK <==> items != [] && items[0] == it)) &&
      (Find(items, it.key) == |items| <==> !room)
  {
    var rest := seen[1..];
    hide Find, RoomWith, NewResult;
    if buf.Some? && !Reusable(seen[0], |buf.value|) {
      NewSafe(sp, keep, rest, items, it, EntryBytes(it.key, |buf.value|), clock, rc, forcible, dropped);
    }
    OwnNew(rest, items, it, if buf.Some? then rc else ERROR);
  }

  /** A new entry of a safe store. */
  lemma {:induction false} NewSafe(sp: Space, keep: seq<Off>, rest: seq<Item>, items: seq<Item>, it: Item, n: nat,
                                   clock: nat -> uint64, rc: Rc, forcible: bool, dropped: nat)
    requires NewResult(sp, keep, rest, items, it, n, true, clock, rc, forcible, dropped)
    ensures rc == (if RoomWith(sp, keep, n) then OK else ERROR) && items == (if rc == OK then [it] else []) + rest
  {
    hide RoomWith, ForcedCount;
    assert keep[..|rest|] == keep && rest[..|rest|] == rest;
  }

  lemma {:induction false} Front(items: seq<Item>)
    requires items != []
    ensures items[0] in items && Find(items, items[0].key) == 0
  {
  }

  /** What mps_slab_init makes of 8192 bytes with pages of 4096: one page. The header and one
      entry have the first two of its chunks of 128 bytes. */
  function Small(): Space {
    Space(SlabLayout.Geometry(12, 3, 11, 12, 4096), map[4096 := 128, 4224 := 128], 4096, [4224], map[4224 := []])
  }

  /** A value for which the entry takes more than 256 bytes. */
  function Wide(): (b: seq<byte>)
    ensures |b| == 200
  {
    seq(200, _ => 7)
  }

  lemma {:induction false} Sizes()
    ensures Powers.Pow2(5) == 32 && Powers.Pow2(6) == 64 && Powers.Pow2(7) == 128 && Powers.Pow2(8) == 256
    ensures Powers.Pow2(9) == 512 && Powers.Pow2(12) == 4096
  {
    assert Powers.Pow2(3) == 8;
    assert Powers.Pow2(6) == 8 * Powers.Pow2(3);
    assert Powers.Pow2(9) == 8 * Powers.Pow2(6);
  }

  /** Where a page holds a chunk of 128 bytes it has no room for the entry of that value. */
  lemma {:induction false} WideFull(live: map<Off, nat>, h: Off)
    requires h in live && live[h] == 128 && 4096 <= h && h + 128 <= 8192
    ensures !SlabRoom.RoomIn(Small().g, live, EntryBytes([1], 200))
  {
    var g := Small().g;
    Sizes();
    hide Powers.Pow2;
    assert SlabLayout.IsClass(g, 269, 9);
    assert SlabLayout.Addr(g, 11, 0) == 4096;
    assert SlabRoom.Touches(g, h, 128, 11);
    forall shift: nat, page: nat | SlabLayout.IsClass(g, 269, shift) ensures !SlabRoom.Offers(g, live, shift, page) {
      SlabLayout.ClassUnique(g, 269, shift, 9);
    }
  }

  /** mps_shdict_safe_set loses an unexpired value: a longer value is set when there is no room
      for it. */
  lemma {:induction false} SafeSetLoses()
    ensures
      var it := Item([1], Scalar(TSTRING, [2]), 0, 0);
      StoreResult(Small(), [it], [], StoreOp(false, false, true), [1], TSTRING, Some(Wide()), 0, 0, _ => 0, ERROR,
                  false, 0) &&
      LookupRc([it], [1], 0) == OK && Find([], [1]) == 0
  {
    var it := Item([1], Scalar(TSTRING, [2]), 0, 0);
    WideFull(Rest(Small(), []), 4096);
    assert Kept([it], 1, 0) == [it];
    assert Find([it], [1]) == 0;
    assert LookedUp([it], [1]) == [it];
    assert Others(Small().addrs, [it], [1], 0) == [];
  }

  // ---------- what the memory of a new entry can do to an incr ----------

  function Filled(n: nat, b: byte): (s: seq<byte>)
    ensures |s| == n && forall i :: 0 <= i < n ==> s[i] == b
  {
    seq(n, _ => b)
  }

  /** Of the strings of one length the one of zero bytes comes first, that of bytes 255 last. */
  lemma {:induction false} FilledBounds(g: seq<byte>)
    ensures !(Memn2cmp(g, Filled(|g|, 0)) < 0) && !(Memn2cmp(Filled(|g|, 255), g) < 0)
  {
    Memn2cmpIsLex(g, Filled(|g|, 0));
    Memn2cmpIsLex(Filled(|g|, 255), g);
  }

  /** Some contents of the memory would put the new entry on the wrong side of the live `other`. */
  ghost predicate Breakable(key: seq<byte>, other: seq<byte>) {
    if Memn2cmp(key, other) < 0 then !(Memn2cmp(Filled(|key|, 255), other) < 0)
      else Memn2cmp(Filled(|key|, 0), other) < 0
  }

  /** An incr that makes an entry is safe whatever the memory holds if and only if no live
      entry with the same hash is breakable: each sorts before all strings of the length of the
      key, or after all of them. */
  lemma {:induction false} MemoryMatters(hash: Hash, items: seq<Item>, key: seq<byte>)
    ensures (forall g: seq<byte> :: |g| == |key| ==> SameSide(hash, items, key, g)) <==>
      forall it {:trigger it in items} ::
        it in items && it.key != key && hash(it.key) == hash(key) ==> !Breakable(key, it.key)
  {
    forall it, g: seq<byte> {:trigger it in items, SameSide(hash, items, key, g)}
      | it in items && |g| == |key| && (Memn2cmp(g, it.key) < 0) != (Memn2cmp(key, it.key) < 0)
      ensures Breakable(key, it.key)
    {
      OneBreaks(key, it.key, g);
    }
    forall it | it in items && it.key != key && hash(it.key) == hash(key) && Breakable(key, it.key)
      ensures exists g: seq<byte> :: |g| == |key| && !SameSide(hash, items, key, g)
    {
      var g := Filled(|key|, if Memn2cmp(key, it.key) < 0 then 255 else 0);
      assert |g| == |key| && !SameSide(hash, items, key, g);
    }
  }

  lemma {:induction false} OneBreaks(key: seq<byte>, other: seq<byte>, g: seq<byte>)
    requires |g| == |key| && (Memn2cmp(g, other) < 0) != (Memn2cmp(key, other) < 0)
    ensures Breakable(key, other)
  {
    FilledBounds(g);
    var lo, hi := Filled(|key|, 0), Filled(|key|, 255);
    Memn2cmpTotalOrder(hi, other, g);
    Memn2cmpTotalOrder(g, other, hi);
    Memn2cmpTotalOrder(lo, g, other);
    Memn2cmpTotalOrder(g, lo, other);
    Memn2cmpTotalOrder(other, g, lo);
  }

  /** After an incr has put a new entry in the index under the bytes `g` that its memory held, and
      then written its key, the index is in order, as every lookup needs it, if and only if the
      comparator goes the same way by the key at every live entry. */
  lemma {:induction false} IncrOrderIff(hash: Hash, s: Snap, key: seq<byte>, g: seq<byte>, a: Off, i: nat)
    requires SnapOk(hash, s) && Find(s.items, key) == |s.items| && a !in s.live && i <= |s.order|
    requires forall k :: Splits(Luadict, s.payload, s.order, Payload(hash(key), g), k) ==> k == i
    ensures Ascending(s.payload[a := Payload(hash(key), key)], Inserted(s.order, i, a)) <==>
      SameSide(hash, s.items, key, g)
  {
    var p, q := Payload(hash(key), key), Payload(hash(key), g);
    var d := s.payload[a := q];
    HoldFacts(hash, s, a, key);
    assert d[a := p] == s.payload[a := p];
    forall j {:trigger s.order[j]} | 0 <= j < |s.order|
      ensures s.order[j] != a && s.order[j] in s.payload && d[s.order[j]] == s.payload[s.order[j]] && d[s.order[j]] != p
    {
      assert s.order[j] in s.order;
    }
    assert Ascending(d, s.order);
    forall k | Splits(Luadict, d, s.order, d[a], k) ensures k == i {
      assert Splits(Luadict, s.payload, s.order, q, k);
    }
    RenameOrder(d, s.order, a, i, p);
    SidesAgree(hash, s, key, g, d);
  }

  /** The nodes of the index and the items give the same condition. */
  lemma {:induction false} SidesAgree(hash: Hash, s: Snap, key: seq<byte>, g: seq<byte>, d: map<Off, Payload>)
    requires SnapOk(hash, s) && Find(s.items, key) == |s.items|
    requires forall j {:trigger s.order[j]} :: 0 <= j < |s.order| ==>
      s.order[j] in d && s.order[j] in s.payload && d[s.order[j]] == s.payload[s.order[j]]
    ensures
      (forall j {:trigger s.order[j]} :: 0 <= j < |s.order| ==>
        (GoesLeft(Luadict, Payload(hash(key), key), d[s.order[j]]) <==>
         GoesLeft(Luadict, Payload(hash(key), g), d[s.order[j]]))) <==>
      SameSide(hash, s.items, key, g)
  {
    var p, q := Payload(hash(key), key), Payload(hash(key), g);
    if SameSide(hash, s.items, key, g) {
      SameSideOrder(hash, s, key, g);
      forall j | 0 <= j < |s.order|
        ensures GoesLeft(Luadict, p, d[s.order[j]]) <==> GoesLeft(Luadict, q, d[s.order[j]])
      {
        assert s.order[j] in s.order;
      }
    }
    forall it | it in s.items && it.key != key && hash(it.key) == hash(key)
      ensures exists j :: 0 <= j < |s.order| && d[s.order[j]] == Payload(hash(key), it.key)
    {
      var k :| 0 <= k < |s.items| && s.items[k] == it;
      AtFacts(hash, s, k);
      var j :| 0 <= j < |s.order| && s.order[j] == s.addrs[k];
    }
  }

  /** Hash values may all be the same. */
  function Seven(key: seq<byte>): uint64 {
    7
  }

  /** A dictionary with one number, under the key [2]. */
  function OneNumber(): Snap {
    var number := [0, 0, 0, 0, 0, 0, 0, 0];
    var lru := map[4096 := QLink(4224, 4224), 4224 := QLink(4096, 4096)];
    Snap(4096, [4224], [Item([2], Scalar(TNUMBER, number), 0, 0)], map[4224 := []], map[4224 := Payload(7, [2])],
         [4224], map[4224 := Entry(1, TNUMBER, 8, 0, 0, number)], map[], lru, map[], {4096, 4224})
  }

  /** There an incr of the key [1] whose memory held [3] leaves the index out of order: what a
      lookup relies on does not hold any more. */
  lemma {:induction false} IncrBreaksIndex()
    ensures
      var s := OneNumber();
      SnapOk(Seven, s) && Find(s.items, [1]) == 1 && 4352 !in s.live &&
      Splits(Luadict, s.payload, s.order, Payload(7, [3]), 1) &&
      !Ascending(s.payload[4352 := Payload(7, [1])], Inserted(s.order, 1, 4352))
  {
    var s := OneNumber();
    assert EntryAt(Seven, s, 0);
    assert LinkOk(s.lq, 4096, [4224], 0);
    assert Footprint(4096, [4224], s.nodes) == {4096, 4224};
    assert SnapOk(Seven, s);
    var it := s.items[0];
    assert it in s.items;
    assert Memn2cmp([1], [2]) < 0 && Memn2cmp([3], [2]) > 0;
    IncrOrderIff(Seven, s, [1], [3], 4352, 1);
  }
}
