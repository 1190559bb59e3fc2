/** The dictionary as its callers see it: items in order of recency, and what each
    operation makes of them (src/mps_shdict.c). */
module DictSpec {
  import opened RbShape
  import opened RbOrder
  import opened NgxString
  import opened Seqs
  import opened Queue
  import opened DictState
  import opened DictRoom
  import SlabRoom

  /** NGX_OK, NGX_DECLINED, NGX_ERROR and NGX_DONE. */
  datatype Rc = OK | DECLINED | ERROR | DONE

  /** The difference of two clock values taken as a signed 64-bit number. */
  function Ms(expires: uint64, now: uint64): int {
    (expires - now + HALF) % WORD - HALF
  }

  /** A lookup treats the item as expired. */
  predicate Expired(expires: uint64, now: uint64) {
    expires != 0 && Ms(expires, now) < 0
  }

  /** mps_shdict_expire may remove the item. */
  predicate Due(expires: uint64, now: uint64) {
    expires != 0 && Ms(expires, now) <= 0
  }

  function ExpiresAt(exptime: int, now: uint64): uint64 {
    if exptime > 0 then (now + exptime) % WORD else 0
  }

  /** The number of items mps_shdict_expire removes, all from the end: at most 3 - n, and
      after the first round of n == 0 only those that are due. */
  ghost function ExpireCount(items: seq<Item>, n: nat, now: uint64): (k: nat)
    ensures k <= |items| && (n <= 3 ==> k <= 3 - n)
    decreases 3 - n
  {
    if n >= 3 || items == [] || (n != 0 && !Due(items[|items| - 1].expires, now)) then 0
    else 1 + ExpireCount(items[..|items| - 1], n + 1, now)
  }

  /** What is left of the items after mps_shdict_expire. */
  ghost function Kept(items: seq<Item>, n: nat, now: uint64): seq<Item> {
    items[..|items| - ExpireCount(items, n, now)]
  }

  lemma {:induction false} ExpireStep(items: seq<Item>, n: nat, now: uint64)
    ensures n >= 3 || items == [] ==> ExpireCount(items, n, now) == 0
    ensures n < 3 && items != [] && n != 0 && !Due(items[|items| - 1].expires, now) ==> ExpireCount(items, n, now) == 0
    ensures n < 3 && items != [] && (n == 0 || Due(items[|items| - 1].expires, now)) ==>
      ExpireCount(items, n, now) == 1 + ExpireCount(items[..|items| - 1], n + 1, now)
  {
  }

  /** Only the least recent items are removed; each of them is due, but for the very first
      one of a forced round. */
  lemma {:induction false} ExpireSuffix(items: seq<Item>, n: nat, now: uint64)
    ensures
      var k := ExpireCount(items, n, now);
      forall i {:trigger items[i]} ::
        |items| - k <= i < |items| && (n > 0 || i != |items| - 1) ==> Due(items[i].expires, now)
    ensures n == 0 && items != [] ==> 0 < ExpireCount(items, n, now)
    decreases 3 - n
  {
    if !(n >= 3 || items == [] || (n != 0 && !Due(items[|items| - 1].expires, now))) {
      ExpireSuffix(items[..|items| - 1], n + 1, now);
      assert forall i :: 0 <= i < |items| - 1 ==> items[..|items| - 1][i] == items[i];
    }
  }

  /** Before a call drops anything by force, no item is lost that a reader could still get:
      what is removed reads as expired as soon as the clock moves on. */
  lemma {:induction false} DueSoonExpired(expires: uint64, now: uint64, later: uint64)
    requires Due(expires, now) && 0 < Ms(later, now) && Ms(later, now) - Ms(expires, now) < HALF
    ensures Expired(expires, later)
  {
    var a, b := Ms(expires, now), Ms(later, now);
    assert (expires - now - a) % WORD == 0 && (later - now - b) % WORD == 0;
    assert (expires - later - (a - b)) % WORD == 0;
  }

  /** Where the item with the key is, or the number of items if there is none. */
  ghost function Find(items: seq<Item>, key: seq<byte>): (k: nat)
    ensures k <= |items| && (k < |items| ==> items[k].key == key)
    ensures forall i {:trigger items[i]} :: 0 <= i < k ==> items[i].key != key
  {
    if items == [] || items[0].key == key then 0
    else
      var k := Find(items[1..], key);
      assert forall i :: 0 < i < |items| ==> items[i] == items[1..][i - 1];
      1 + k
  }

  /** The item at position `k` becomes the most recent one. */
  ghost function Touched<T>(items: seq<T>, k: int): seq<T>
    requires 0 <= k < |items|
  {
    [items[k]] + Dropped(items, k)
  }

  /** What a lookup does to the order. */
  ghost function LookedUp(items: seq<Item>, key: seq<byte>): seq<Item> {
    if Find(items, key) < |items| then Touched(items, Find(items, key)) else items
  }

  ghost function LookupRc(items: seq<Item>, key: seq<byte>, now: uint64): Rc {
    var k := Find(items, key);
    if k == |items| then DECLINED else if Expired(items[k].expires, now) then DONE else OK
  }

  // ---------- the index finds exactly the items ----------

  lemma {:induction false} IndexFacts(hash: Hash, s: Snap)
    requires SnapOk(hash, s)
    ensures Ascending(s.payload, s.order) && |s.items| == |s.addrs|
  {
  }

  /** An entry found by its hash and key string is that of the item with the key. */
  lemma {:induction false} FoundAt(hash: Hash, s: Snap, key: seq<byte>, a: Off) returns (k: nat)
    requires SnapOk(hash, s) && a in s.addrs && a in s.payload && s.payload[a] == Payload(hash(key), key)
    ensures |s.items| == |s.addrs| && k < |s.items| && k == Find(s.items, key) && s.addrs[k] == a
  {
    k :| 0 <= k < |s.addrs| && s.addrs[k] == a;
    AtFacts(hash, s, k);
    var m := Find(s.items, key);
    assert m <= k;
    KeysDistinct(hash, s, m, k);
  }

  /** A key without an entry in the index has no item. */
  lemma {:induction false} NotFound(hash: Hash, s: Snap, key: seq<byte>)
    requires SnapOk(hash, s) && forall a :: a in s.addrs ==> a in s.payload && s.payload[a] != Payload(hash(key), key)
    ensures Find(s.items, key) == |s.items|
  {
    var k := Find(s.items, key);
    if k < |s.items| { AtFacts(hash, s, k); }
  }

  /** What is known before a new entry is put in its place. */
  lemma {:induction false} HoldFacts(hash: Hash, s: Snap, a: Off, key: seq<byte>)
    requires SnapOk(hash, s) && a !in s.live && Find(s.items, key) == |s.items|
    ensures a !in s.addrs && a !in Members(s.addrs) && a != s.h && Ring(s.lq, s.h, s.addrs) &&
      Ascending(s.payload, s.order)
    ensures a !in s.order && forall x {:trigger x in s.order} ::
      x in s.order ==> x in s.payload && s.payload[x] != Payload(hash(key), key)
  {
    InFootprint(s.h, s.addrs, s.nodes, a);
    forall x | x in s.order ensures x in s.payload && s.payload[x] != Payload(hash(key), key) {
      assert x in s.addrs;
      var k :| 0 <= k < |s.addrs| && s.addrs[k] == x;
      AtFacts(hash, s, k);
    }
  }

  /** A key that is not in the index yet keeps the order. */
  lemma {:induction false} NewOrder(d: map<Off, Payload>, e: map<Off, Payload>, s: seq<Off>, a: Off, i: nat)
    requires Ascending(d, s) && a !in s && i <= |s| && a in e && e == d[a := e[a]]
    requires forall x {:trigger x in s} :: x in s ==> x in d && d[x] != e[a]
    requires forall k :: Splits(Luadict, e, s, e[a], k) ==> k == i
    ensures Ascending(e, Inserted(s, i, a)) &&
      (forall x {:trigger x in Inserted(s, i, a)} :: x in Inserted(s, i, a) <==> x == a || x in s)
  {
    assert Ascending(e, s) by { forall j | 0 <= j < |s| ensures s[j] in e && e[s[j]] == d[s[j]] { assert s[j] in s; } }
    forall j | 0 <= j < |s| ensures e[s[j]] != e[a] { assert s[j] in s; }
    AscendingInsert(e, s, a, i);
    assert s == s[..i] + s[i..];
  }

  lemma {:induction false} NewMembers(s: seq<Off>, a: Off)
    ensures Members([a] + s) == Members(s) + {a}
  {
  }

  // ---------- keys and lists through the steps ----------

  lemma {:induction false} FindNone(items: seq<Item>, key: seq<byte>)
    requires forall i {:trigger items[i]} :: 0 <= i < |items| ==> items[i].key != key
    ensures Find(items, key) == |items|
  {
  }

  lemma {:induction false} FindPrefix(items: seq<Item>, key: seq<byte>, m: nat)
    requires Find(items, key) == |items| && m <= |items|
    ensures Find(items[..m], key) == m
  {
    FindNone(items[..m], key);
  }

  /** Without its most recent item a dictionary has no item of that key. */
  lemma {:induction false} FindRest(hash: Hash, s: Snap)
    requires SnapOk(hash, s) && s.items != []
    ensures Find(s.items[1..], s.items[0].key) == |s.items| - 1 && |s.addrs| == |s.items|
  {
    var rest := s.items[1..];
    forall i | 0 <= i < |rest| ensures rest[i].key != s.items[0].key {
      if rest[i].key == s.items[0].key { KeysDistinct(hash, s, 0, i + 1); }
    }
    FindNone(rest, s.items[0].key);
  }

  lemma {:induction false} DropFirst<T>(s: seq<T>)
    requires s != []
    ensures Dropped(s, 0) == s[1..]
  {
  }

  lemma {:induction false} NoneEmptyPrefix(items: seq<Item>, m: nat)
    requires NoneEmpty(items) && m <= |items|
    ensures NoneEmpty(items[..m])
  {
    forall i | 0 <= i < m ensures items[..m][i].value.List? ==>
      items[..m][i].value.elems != [] { assert items[..m][i] == items[i]; }
  }

  lemma {:induction false} NoneEmptyTouched(items: seq<Item>, k: nat)
    requires NoneEmpty(items) && k < |items|
    ensures NoneEmpty(Touched(items, k)) && NoneEmpty(Touched(items, k)[1..]) && NoneEmpty(Dropped(items, k))
    ensures Touched(items, k)[1..] == Dropped(items, k)
  {
    var t := Dropped(items, k);
    forall i | 0 <= i < |t| ensures t[i].value.List? ==>
      t[i].value.elems != [] { assert t[i] == items[if i < k then i else i + 1]; }
    forall i | 0 <= i < |Touched(items, k)| ensures Touched(items, k)[i].value.List? ==>
      Touched(items, k)[i].value.elems != [] {
      if i > 0 { assert Touched(items, k)[i] == t[i - 1]; }
    }
    assert Touched(items, k)[1..] == t;
  }

  lemma {:induction false} NoneEmptyNew(items: seq<Item>, it: Item)
    requires NoneEmpty(items) && (it.value.List? ==> it.value.elems != [])
    ensures NoneEmpty([it] + items)
  {
    forall i | 0 <= i < |items| + 1 ensures ([it] + items)[i].value.List? ==> ([it] + items)[i].value.elems != [] {
      if i > 0 { assert ([it] + items)[i] == items[i - 1]; }
    }
  }

  lemma {:induction false} NoneEmptyLookedUp(items: seq<Item>, n: nat, now: uint64, key: seq<byte>)
    requires NoneEmpty(items)
    ensures NoneEmpty(LookedUp(Kept(items, n, now), key))
  {
    NoneEmptyPrefix(items, |items| - ExpireCount(items, n, now));
    var kept := Kept(items, n, now);
    if Find(kept, key) < |kept| { NoneEmptyTouched(kept, Find(kept, key)); }
  }

  // ---------- store ----------

  /** The flags of a store: MPS_SHDICT_ADD, MPS_SHDICT_REPLACE, MPS_SHDICT_SAFE_STORE. */
  datatype StoreOp = StoreOp(add: bool, replace: bool, safe: bool)

  /** The value bytes that mps_shdict_store works with: of a string as given, of a number its
      bytes, of a boolean one byte, of nil none. */
  function ValueBytes(valueType: int, str: Option<seq<byte>>, num: seq<byte>, nonzero: bool): Option<seq<byte>> {
    if valueType == TNUMBER then Some(num)
    else if valueType == TBOOLEAN then Some([if nonzero then 1 else 0])
    else if valueType == TNIL then None
    else str
  }

  /** A new value takes the place of the old one if that has the same length and is no list. */
  ghost predicate Reusable(it: Item, len: nat) {
    it.value.Scalar? && |it.value.data| == len
  }

  /** The clock as it is read while room is made. */
  function Later(clock: nat -> uint64): nat -> uint64 {
    k => clock(3 + k)
  }

  /** How many entries are removed by force: rounds of expiry, at most 30 of them, until there
      is room for `n` bytes. The items `rest` are those of the entries `keep`. */
  ghost function ForcedCount(sp: Space, keep: seq<Off>, rest: seq<Item>, n: nat, clock: nat -> uint64, i: nat): (c: nat)
    requires |keep| == |rest|
    ensures c <= |rest|
    decreases 30 - i
  {
    if RoomWith(sp, keep, n) || i >= 30 || rest == [] then 0
    else
      var k := ExpireCount(rest, 0, clock(i));
      k + ForcedCount(sp, keep[..|rest| - k], rest[..|rest| - k], n, clock, i + 1)
  }

  /** Before round `i` of the eviction, when `dropped` entries are gone. */
  ghost predicate Forcing(sp: Space, addrs0: seq<Off>, items0: seq<Item>, addrs: seq<Off>, items: seq<Item>, n: nat,
                          clock: nat -> uint64, i: nat, dropped: nat) {
    |addrs0| == |items0| && dropped <= |items0| && items == items0[..|items0| - dropped] && |addrs| == |items| &&
    addrs == addrs0[..|items|] &&
    dropped + ForcedCount(sp, addrs, items, n, clock, i) == ForcedCount(sp, addrs0, items0, n, clock, 0)
  }

  lemma {:induction false} ForcingStart(sp: Space, addrs: seq<Off>, items: seq<Item>, n: nat, clock: nat -> uint64)
    requires |addrs| == |items|
    ensures Forcing(sp, addrs, items, addrs, items, n, clock, 0, 0)
    ensures RoomWith(sp, addrs, n) ==> ForcedCount(sp, addrs, items, n, clock, 0) == 0
  {
    hide RoomWith, ExpireCount;
  }

  lemma {:induction false} ForcingStep(sp: Space, addrs0: seq<Off>, items0: seq<Item>, addrs: seq<Off>,
                                       items: seq<Item>, n: nat, clock: nat -> uint64, i: nat, dropped: nat,
                                       addrs2: seq<Off>, items2: seq<Item>, freed: nat)
    requires Forcing(sp, addrs0, items0, addrs, items, n, clock, i, dropped) && !RoomWith(sp, addrs, n) && i < 30
    requires freed == ExpireCount(items, 0, clock(i)) && items2 == Kept(items, 0, clock(i)) &&
      addrs2 == addrs[..|items2|]
    ensures Forcing(sp, addrs0, items0, addrs2, items2, n, clock, i + 1, dropped + freed)
    ensures freed == 0 ==> items2 == items0[..|items0| - dropped] && addrs2 == addrs0[..|items2|]
    ensures freed == 0 ==> addrs2 == addrs && dropped == ForcedCount(sp, addrs0, items0, n, clock, 0)
  {
    ExpireSuffix(items, 0, clock(i));
    hide RoomWith, ExpireCount;
  }

  lemma {:induction false} ForcingDone(sp: Space, addrs0: seq<Off>, items0: seq<Item>, addrs: seq<Off>,
                                       items: seq<Item>, n: nat, clock: nat -> uint64, i: nat, dropped: nat)
    requires Forcing(sp, addrs0, items0, addrs, items, n, clock, i, dropped)
    ensures items == items0[..|items0| - dropped] && addrs == addrs0[..|items|]
    ensures RoomWith(sp, addrs, n) || i >= 30 ==> dropped == ForcedCount(sp, addrs0, items0, n, clock, 0)
  {
    hide RoomWith, ExpireCount;
  }

  /** The entries that are left, in order of recency, once up to two have expired and the one
      with the key is gone. */
  ghost function Others(addrs: seq<Off>, items: seq<Item>, key: seq<byte>, now: uint64): (keep: seq<Off>)
    requires |addrs| == |items|
    ensures
      var alive := Kept(items, 1, now);
      |keep| == |alive| - if Find(alive, key) < |alive| then 1 else 0
  {
    var alive := Kept(items, 1, now);
    var k := Find(alive, key);
    if k < |alive| then Dropped(addrs[..|alive|], k) else addrs[..|alive|]
  }

  /** The order of the entries after up to two have expired and the key was looked up. */
  ghost predicate Looked(addrs: seq<Off>, items: seq<Item>, key: seq<byte>, now: uint64, after: seq<Off>, rc: Rc) {
    var alive := Kept(items, 1, now);
    var k := Find(alive, key);
    |addrs| == |items| && (rc == DECLINED <==> k == |alive|) &&
    after == if k < |alive| then Touched(addrs[..|alive|], k) else addrs[..|alive|]
  }

  lemma {:induction false} LookedAddrs(addrs: seq<Off>, items: seq<Item>, key: seq<byte>, now: uint64, mid: seq<Off>,
                                       alive: seq<Item>, later: uint64, after: seq<Off>, rc: Rc)
    requires |addrs| == |items| && alive == Kept(items, 1, now) && mid == addrs[..|alive|] &&
      rc == LookupRc(alive, key, later)
    requires rc == DECLINED ==> after == mid
    requires rc != DECLINED ==> Find(alive, key) < |alive| && after == Touched(mid, Find(alive, key))
    ensures Looked(addrs, items, key, now, after, rc) &&
      (rc == DECLINED ==> LookedUp(alive, key) == alive && Find(alive, key) == |alive|)
  {
    hide Find, Kept;
  }

  lemma {:induction false} LookedOthers(addrs: seq<Off>, items: seq<Item>, key: seq<byte>, now: uint64, after: seq<Off>,
                                        rc: Rc)
    requires Looked(addrs, items, key, now, after, rc)
    ensures |addrs| == |items| && (rc != DECLINED ==> after != [])
    ensures Others(addrs, items, key, now) == if rc == DECLINED then after else after[1..]
  {
    hide Find, Kept;
  }

  /** A new item of `n` bytes in front of what is left of `rest` when entries had to be removed
      by force; or, when there is no room even so, only what is left. */
  ghost predicate NewResult(sp: Space, keep: seq<Off>, rest: seq<Item>, items: seq<Item>, it: Item, n: nat, safe: bool,
                            clock: nat -> uint64, rc: Rc, forcible: bool, dropped: nat) {
    |keep| == |rest| && dropped == (if safe then 0 else ForcedCount(sp, keep, rest, n, Later(clock), 0)) &&
    forcible == (0 < dropped) && rc == (if RoomWith(sp, keep[..|rest| - dropped], n) then OK else ERROR) &&
    items == (if rc == OK then [it] else []) + rest[..|rest| - dropped]
  }

  /** What a store that goes ahead makes of the items `seen`, of which the first is the one
      with the key if it was `found`. The other entries are `keep`. */
  ghost predicate PutResult(sp: Space, keep: seq<Off>, seen: seq<Item>, found: bool, items: seq<Item>,
                            buf: Option<seq<byte>>, it: Item, safe: bool, clock: nat -> uint64, rc: Rc, forcible: bool,
                            dropped: nat) {
    var rest := if found && seen != [] then seen[1..] else seen;
    if buf.None? then rc == OK && items == rest && !forcible && dropped == 0
    else if found && seen != [] && Reusable(seen[0], |buf.value|)
    then rc == OK && items == [it] + rest && !forcible && dropped == 0
    else NewResult(sp, keep, rest, items, it, EntryBytes(it.key, |buf.value|), safe, clock, rc, forcible, dropped)
  }

  /** What a store makes of the items `old_`. */
  ghost predicate StoreResult(sp: Space, old_: seq<Item>, items: seq<Item>, op: StoreOp, key: seq<byte>, kind: nat,
                              buf: Option<seq<byte>>, exptime: int, flags: int, clock: nat -> uint64, rc: Rc,
                              forcible: bool, dropped: nat) {
    var alive := Kept(old_, 1, clock(0));
    var found, seen := LookupRc(alive, key, clock(1)), LookedUp(alive, key);
    var it := Item(key, Scalar(kind, if buf.Some? then buf.value else []), flags, ExpiresAt(exptime, clock(2)));
    |sp.addrs| == |old_| &&
    if (op.replace && found != OK) || (!op.replace && op.add && found == OK)
    then rc == DECLINED && items == seen && !forcible && dropped == 0
    else PutResult(sp, Others(sp.addrs, old_, key, clock(0)), seen, found != DECLINED, items, buf, it, op.safe, clock,
                   rc, forcible, dropped)
  }

  // ---------- reading, expiry, flushing ----------

  /** What a get returns for the item found: an error for a list. */
  ghost predicate GetResult(old_: seq<Item>, items: seq<Item>, key: seq<byte>, now: uint64, getStale: bool, rc: Rc,
                            value: Option<(nat, seq<byte>)>, flags: int, stale: bool) {
    var found := LookupRc(old_, key, now);
    items == LookedUp(old_, key) &&
    if found == DECLINED || (found == DONE && !getStale) || items == [] then rc == OK && value == None
    else match items[0].value
      case List(_) => rc == ERROR && value == None
      case Scalar(kind, data) =>
        rc == OK && value == Some((kind, data)) && flags == items[0].flags && stale == (found == DONE)
  }

  /** What get_ttl returns: nothing for a key without an item, 0 for one without a limit. */
  ghost predicate TtlResult(items: seq<Item>, key: seq<byte>, now: uint64, ttl: Option<int>) {
    var k := Find(items, key);
    ttl == if k == |items| then None else Some(if items[k].expires == 0 then 0 else Ms(items[k].expires, now))
  }

  /** What set_expire makes of the items: only one expiry changes. */
  ghost predicate SetExpireResult(old_: seq<Item>, items: seq<Item>, key: seq<byte>, exptime: int, now: uint64,
                                  rc: Rc) {
    var k := Find(old_, key);
    if k == |old_| then rc == DECLINED && items == old_
    else rc == OK && items == old_[k := old_[k].(expires := ExpiresAt(exptime, now))]
  }

  /** All items expire at the first millisecond of the clock. */
  ghost function Flushed(items: seq<Item>): (r: seq<Item>)
    ensures |r| == |items| && forall i {:trigger r[i]} :: 0 <= i < |r| ==> r[i] == items[i].(expires := 1)
  {
    if items == [] then [] else [items[0].(expires := 1)] + Flushed(items[1..])
  }

  /** After mps_shdict_flush_all a lookup reads every item as expired, by any clock from 2
      to half the range of the clock. */
  lemma {:induction false} FlushedExpired(items: seq<Item>, now: uint64, later: uint64, key: seq<byte>)
    requires 2 <= later <= HALF
    ensures
      var left := Kept(Flushed(items), 0, now);
      LookupRc(left, key, later) != OK && |left| <= |items|
  {
    var all := Flushed(items);
    var left := Kept(all, 0, now);
    var k := Find(left, key);
    if k < |left| {
      assert left[k] == all[k] == items[k].(expires := 1);
      assert Ms(1, later) == 1 - later;
    }
  }

  lemma {:induction false} NoneEmptyFound(items: seq<Item>, key: seq<byte>)
    requires NoneEmpty(items)
    ensures NoneEmpty(LookedUp(items, key)) && (Find(items, key) < |items| ==> LookedUp(items, key) != [])
  {
    if Find(items, key) < |items| { NoneEmptyTouched(items, Find(items, key)); }
  }

  /** The links of the recency queue. */
  lemma {:induction false} QueueFacts(hash: Hash, s: Snap)
    requires SnapOk(hash, s)
    ensures s.h in s.lq && s.lq[s.h].next == Nth(s.h, s.addrs, 0) && s.h !in s.addrs
    ensures forall i {:trigger s.addrs[i]} :: 0 <= i < |s.addrs| ==>
      s.addrs[i] in s.lq && s.addrs[i] != s.h && s.lq[s.addrs[i]].next == Nth(s.h, s.addrs, i + 1)
  {
    RingNearAll(s.lq, s.h, s.addrs);
  }

  lemma {:induction false} AllFlushed(old_: seq<Item>, items: seq<Item>, h: Off, addrs: seq<Off>, k: nat)
    requires k <= |addrs| == |items| == |old_| && Nth(h, addrs, k) == h && h !in addrs && NoneEmpty(old_)
    requires forall j {:trigger items[j]} ::
      0 <= j < |items| ==> items[j] == if j < k then old_[j].(expires := 1) else old_[j]
    ensures items == Flushed(old_) && NoneEmpty(items)
  {
    forall j | 0 <= j < |addrs| ensures addrs[j] != h { assert addrs[j] in addrs; }
    forall j | 0 <= j < |items| ensures items[j].value.List? ==>
      items[j].value.elems != [] { assert items[j].value == old_[j].value; }
  }

  // ---------- incr ----------

  /** The comparator sends a node with the bytes `garbage` where it would send one with `key`. */
  ghost predicate SameSide(hash: Hash, items: seq<Item>, key: seq<byte>, garbage: seq<byte>) {
    forall it {:trigger it in items} :: it in items && it.key != key && hash(it.key) == hash(key) ==>
      (Memn2cmp(garbage, it.key) < 0 <==> Memn2cmp(key, it.key) < 0)
  }

  /** It is enough that no other live entry has the same hash. */
  lemma {:induction false} NoCollision(hash: Hash, items: seq<Item>, key: seq<byte>, garbage: seq<byte>)
    requires forall it {:trigger it in items} :: it in items && it.key != key ==> hash(it.key) != hash(key)
    ensures SameSide(hash, items, key, garbage)
  {
  }

  lemma {:induction false} SameSideFewer(hash: Hash, items: seq<Item>, fewer: seq<Item>, key: seq<byte>,
                                         garbage: seq<byte>)
    requires SameSide(hash, items, key, garbage) && forall it {:trigger it in fewer} :: it in fewer ==> it in items
    ensures SameSide(hash, fewer, key, garbage)
  {
  }

  lemma {:induction false} LookedUpIn(items: seq<Item>, n: nat, now: uint64, key: seq<byte>)
    ensures forall it {:trigger it in LookedUp(Kept(items, n, now), key)} ::
      it in LookedUp(Kept(items, n, now), key) ==> it in items
  {
    var kept := Kept(items, n, now);
    if Find(kept, key) < |kept| { TouchedIn(kept, Find(kept, key)); }
  }

  lemma {:induction false} TouchedIn(items: seq<Item>, k: nat)
    requires k < |items|
    ensures forall it {:trigger it in Touched(items, k)} :: it in Touched(items, k) ==> it in items
  {
  }

  /** The key string of a node is written after the node is put in its place. The order is
      kept if and only if the comparator would have gone the same way with the key. */
  lemma {:induction false} RenameOrder(d: map<Off, Payload>, s: seq<Off>, x: Off, i: nat, p: Payload)
    requires x in d && x !in s && Ascending(d, s) && i <= |s|
    requires forall k :: Splits(Luadict, d, s, d[x], k) ==> k == i
    requires forall j {:trigger s[j]} :: 0 <= j < |s| ==> d[s[j]] != p
    ensures Ascending(d[x := p], Inserted(s, i, x)) <==>
      forall j {:trigger s[j]} :: 0 <= j < |s| ==> (GoesLeft(Luadict, p, d[s[j]]) <==> GoesLeft(Luadict, d[x], d[s[j]]))
  {
    var e, t := d[x := p], Inserted(s, i, x);
    var k := AscendingSplits(d, s, d[x]);
    assert Splits(Luadict, d, s, d[x], i);
    assert forall j :: 0 <= j < |s| ==> t[if j < i then j else j + 1] == s[j] && s[j] in s;
    assert t[i] == x;
    if Ascending(e, t) {
      forall j | 0 <= j < |s| ensures GoesLeft(Luadict, p, d[s[j]]) <==> GoesLeft(Luadict, d[x], d[s[j]]) {
        var m := if j < i then j else j + 1;
        assert if j < i then GoesLeft(Luadict, e[t[m]], e[t[i]]) else GoesLeft(Luadict, e[t[i]], e[t[m]]);
        LuadictOrder(p, d[s[j]], p);
      }
    }
    if forall j {:trigger s[j]} ::
      0 <= j < |s| ==> (GoesLeft(Luadict, p, d[s[j]]) <==> GoesLeft(Luadict, d[x], d[s[j]])) {
      assert Ascending(e, s);
      forall m | Splits(Luadict, e, s, e[x], m) ensures m == i {
        forall j | 0 <= j < |s| ensures GoesLeft(Luadict, d[x], d[s[j]]) <==> m <= j { assert s[j] in e; }
        assert Splits(Luadict, d, s, d[x], m);
      }
      AscendingInsert(e, s, x, i);
    }
  }

  /** Two keys with one hash, and memory that held a third: the index is out of order after
      an incr, and a lookup that trusts the order turns away from the key. */
  lemma {:induction false} IncrBreaksOrder()
    ensures
      var b, a, c := Payload(7, [2]), Payload(7, [1]), Payload(7, [3]);
      var d := map[10 := b, 20 := c];
      Ascending(d, [10]) && Splits(Luadict, d, [10], d[20], 1) && !Ascending(d[20 := a], Inserted([10], 1, 20)) &&
      GoesLeft(Luadict, a, b)
  {
    var b, a, c := Payload(7, [2]), Payload(7, [1]), Payload(7, [3]);
    var d := map[10 := b, 20 := c];
    var t := Inserted([10], 1, 20);
    assert t == [10, 20];
    assert Memn2cmp([1], [2]) < 0 && Memn2cmp([2], [1]) > 0 && Memn2cmp([3], [2]) > 0 && Memn2cmp([2], [3]) < 0;
    assert !GoesLeft(Luadict, d[20 := a][t[0]], d[20 := a][t[1]]);
  }

  /** For the index: the node goes the same way under both names. */
  lemma {:induction false} SameSideOrder(hash: Hash, s: Snap, key: seq<byte>, garbage: seq<byte>)
    requires SnapOk(hash, s) && SameSide(hash, s.items, key, garbage) && Find(s.items, key) == |s.items|
    ensures forall x {:trigger x in s.order} :: x in s.order ==> x in s.payload
    ensures forall x {:trigger x in s.order} :: x in s.order ==>
      (GoesLeft(Luadict, Payload(hash(key), key), s.payload[x]) <==>
        GoesLeft(Luadict, Payload(hash(key), garbage), s.payload[x]))
  {
    forall x | x in s.order ensures x in s.payload &&
      (GoesLeft(Luadict, Payload(hash(key), key), s.payload[x]) <==>
        GoesLeft(Luadict, Payload(hash(key), garbage), s.payload[x]))
    {
      assert x in s.addrs;
      var k :| 0 <= k < |s.addrs| && s.addrs[k] == x;
      AtFacts(hash, s, k);
      assert s.items[k] in s.items && s.items[k].key != key;
    }
  }

  lemma {:induction false} RenamedOrder(d: map<Off, Payload>, e: map<Off, Payload>, s: seq<Off>, a: Off, i: nat,
                                        p: Payload)
    requires Ascending(d, s) && a !in s && i <= |s| && a in e && e == d[a := e[a]]
    requires forall x {:trigger x in s} ::
      x in s ==> x in d && d[x] != p && (GoesLeft(Luadict, p, d[x]) <==> GoesLeft(Luadict, e[a], d[x]))
    requires forall k :: Splits(Luadict, e, s, e[a], k) ==> k == i
    ensures Ascending(e[a := p], Inserted(s, i, a))
    ensures forall x {:trigger x in Inserted(s, i, a)} :: x in Inserted(s, i, a) <==> x == a || x in s
  {
    assert Ascending(e, s) by { forall j | 0 <= j < |s| ensures s[j] in e && e[s[j]] == d[s[j]] { assert s[j] in s; } }
    forall j | 0 <= j < |s| ensures e[s[j]] != p &&
      (GoesLeft(Luadict, p, e[s[j]]) <==> GoesLeft(Luadict, e[a], e[s[j]])) { assert s[j] in s; }
    RenameOrder(e, s, a, i, p);
    assert s == s[..i] + s[i..];
  }

  /** What an incr makes of the items `seen` that its lookup leaves; `it` is the item of a new entry. */
  ghost predicate IncrItems(sp: Space, keep: seq<Off>, seen: seq<Item>, found: Rc, items: seq<Item>, value: seq<byte>,
                            hasInit: bool, it: Item, plus: (seq<byte>, seq<byte>) -> seq<byte>, num: seq<byte>,
                            clock: nat -> uint64, rc: Rc, result: seq<byte>, forcible: bool, dropped: nat) {
    if found == OK && seen != [] then
      (if seen[0].value.Scalar? && seen[0].value.kind == TNUMBER
       then rc == OK && result == plus(seen[0].value.data, value) && !forcible &&
            items == [seen[0].(value := Scalar(TNUMBER, result))] + seen[1..]
       else rc == ERROR && items == seen && !forcible)
    else if !hasInit then rc == ERROR && items == seen && !forcible
    else
      (rc == OK ==> result == num) &&
      PutResult(sp, keep, seen, found == DONE, items, Some(num), it, false, clock, rc, forcible, dropped)
  }

  /** What an incr makes of the items `old_`. */
  ghost predicate IncrResult(sp: Space, old_: seq<Item>, items: seq<Item>, key: seq<byte>, value: seq<byte>,
                             hasInit: bool, init: seq<byte>, initTtl: int, plus: (seq<byte>, seq<byte>) -> seq<byte>,
                             clock: nat -> uint64, rc: Rc, result: seq<byte>, forcible: bool, dropped: nat) {
    var alive, num := Kept(old_, 1, clock(0)), plus(value, init);
    var it := Item(key, Scalar(TNUMBER, num), 0, ExpiresAt(initTtl, clock(2)));
    |sp.addrs| == |old_| &&
    IncrItems(sp, Others(sp.addrs, old_, key, clock(0)), LookedUp(alive, key), LookupRc(alive, key, clock(1)), items,
              value, hasInit, it, plus, num, clock, rc, result, forcible, dropped)
  }

  // ---------- lists ----------

  /** The elements with a new one on the left or on the right. */
  function Pushed(elems: seq<Elem>, left: bool, e: Elem): seq<Elem> {
    if left then [e] + elems else elems + [e]
  }

  /** The element that a pop on the left or on the right returns, and those it leaves. */
  function PopIndex(elems: seq<Elem>, left: bool): nat
    requires elems != []
  {
    if left then 0 else |elems| - 1
  }

  /** The pool may put the list for a new key into the `cap` bytes at `head`. */
  ghost predicate HeadTaken(sp: Space, keep: seq<Off>, key: seq<byte>, head: Off, cap: nat) {
    RoomWith(sp, keep, ListBytes(key)) ==> SlabRoom.Granted(sp.g, Rest(sp, keep), ListBytes(key), head, cap)
  }

  /** A list for a new key: whether there was room for it, and what is allocated then. */
  ghost predicate NewHead(sp: Space, keep: seq<Off>, key: seq<byte>, head: Off, cap: nat, ok: bool,
                          live: map<Off, nat>) {
    (ok <==> RoomWith(sp, keep, ListBytes(key))) && HeadTaken(sp, keep, key, head, cap) &&
    (ok ==> live == Rest(sp, keep)[head := cap])
  }

  /** The key has a list, which may have expired. */
  ghost predicate HasList(old_: seq<Item>, key: seq<byte>, now: uint64) {
    var alive := Kept(old_, 1, now);
    var k := Find(alive, key);
    k < |alive| && alive[k].value.List?
  }

  /** There is room for what a push asks for: an element, in a list that is there, its own
      elements gone if it has expired; or else a new list and then the element. */
  ghost predicate PushRoom(sp: Space, old_: seq<Item>, found: Rc, key: seq<byte>, e: Elem, now: uint64, head: Off,
                           cap: nat)
    requires |sp.addrs| == |old_|
  {
    var alive := Kept(old_, 1, now);
    var mine, k := sp.addrs[..|alive|], Find(alive, key);
    if HasList(old_, key, now)
    then RoomWith(if found == DONE then sp.(nodes := sp.nodes[mine[k] := []]) else sp, mine, NodeBytes(e))
    else
      var keep := Others(sp.addrs, old_, key, now);
      RoomWith(sp, keep, ListBytes(key)) && SlabRoom.RoomIn(sp.g, Rest(sp, keep)[head := cap], NodeBytes(e))
  }

  /** What a push makes of the items `seen` that its lookup leaves: a list under a live key
      grows, any other key gets a list of one element; without room nothing is left of a key
      that had no live list. */
  ghost predicate PushedItems(seen: seq<Item>, found: Rc, items: seq<Item>, key: seq<byte>, left: bool, e: Elem,
                              room: bool, rc: Rc, len: nat) {
    var rest := if found != DECLINED && seen != [] then seen[1..] else seen;
    if found == OK && seen != [] && seen[0].value.Scalar? then rc == ERROR && items == seen
    else
      var elems := if found == OK && seen != [] then seen[0].value.elems else [];
      rc == (if room then OK else ERROR) &&
      if rc == OK then len == |elems| + 1 && items != [] && items[1..] == rest && items[0].key == key &&
        items[0].value == List(Pushed(elems, left, e)) &&
        (if found == OK && seen != [] then items[0] == seen[0].(value := items[0].value) else items[0].expires == 0)
      else items == if found == OK then seen else rest
  }

  /** What a push makes of the items `old_`. A new list is put at `head`. */
  ghost predicate PushResult(sp: Space, old_: seq<Item>, items: seq<Item>, key: seq<byte>, left: bool, e: Elem,
                             clock: nat -> uint64, head: Off, cap: nat, rc: Rc, len: nat) {
    var alive := Kept(old_, 1, clock(0));
    var found := LookupRc(alive, key, clock(1));
    |sp.addrs| == |old_| &&
    (found != OK && !HasList(old_, key, clock(0)) ==>
      HeadTaken(sp, Others(sp.addrs, old_, key, clock(0)), key, head, cap)) &&
    PushedItems(LookedUp(alive, key), found, items, key, left, e,
                PushRoom(sp, old_, found, key, e, clock(0), head, cap), rc, len)
  }

  /** What a pop makes of the items `seen` that its lookup leaves: the entry goes with its last element. */
  ghost predicate PoppedItems(seen: seq<Item>, found: Rc, items: seq<Item>, left: bool, rc: Rc, value: Option<Elem>) {
    if found != OK || seen == [] then rc == OK && value == None && items == seen
    else if seen[0].value.Scalar? then rc == ERROR && value == None && items == seen
    else
      var elems := seen[0].value.elems;
      elems != [] && rc == OK && value == Some(elems[PopIndex(elems, left)]) &&
      (|elems| == 1 ==> items == seen[1..]) &&
      (|elems| != 1 ==> items == [seen[0].(value := List(Dropped(elems, PopIndex(elems, left))))] + seen[1..])
  }

  /** What a pop makes of the items `old_`. */
  ghost predicate PopResult(old_: seq<Item>, items: seq<Item>, key: seq<byte>, left: bool, clock: nat -> uint64, rc: Rc,
                            value: Option<Elem>) {
    var alive := Kept(old_, 1, clock(0));
    PoppedItems(LookedUp(alive, key), LookupRc(alive, key, clock(1)), items, left, rc, value)
  }

  /** What llen returns: 0 for a key without a live value. */
  ghost predicate LlenResult(old_: seq<Item>, items: seq<Item>, key: seq<byte>, clock: nat -> uint64, rc: Rc,
                             len: nat) {
    var alive := Kept(old_, 1, clock(0));
    items == LookedUp(alive, key) &&
    if LookupRc(alive, key, clock(1)) != OK || items == [] then rc == OK && len == 0
    else if items[0].value.List? then rc == OK && len == |items[0].value.elems| else rc == ERROR
  }

  lemma {:induction false} RestSame(sp: Space, keep: seq<Off>, same: seq<Off>)
    requires SameMembers(keep, same)
    ensures Rest(sp, keep) == Rest(sp, same)
  {
    assert forall a :: a in keep <==> a in same;
  }

  lemma {:induction false} TouchedSame(s: seq<Off>, k: nat)
    requires k < |s|
    ensures SameMembers(Touched(s, k), s)
  {
    forall x ensures x in Touched(s, k) <==> x in s {
      if x in s {
        var i :| 0 <= i < |s| && s[i] == x;
        if i != k { InDropped(s, k, i); }
      }
    }
  }

  /** Whether a push finds room, told from what is allocated when it asks for its element. */
  lemma {:induction false} PushRoomIs(sp: Space, old_: seq<Item>, found: Rc, key: seq<byte>, e: Elem, now: uint64,
                                      addrs: seq<Off>, seen: seq<Item>, head: Off, cap: nat, ok: bool,
                                      live: map<Off, nat>)
    requires Looked(sp.addrs, old_, key, now, addrs, found) && seen == LookedUp(Kept(old_, 1, now), key)
    requires found != DECLINED ==> addrs != [] && seen != []
    requires
      if found != DECLINED && seen[0].value.List?
      then ok && live == Rest(if found == DONE then sp.(nodes := sp.nodes[addrs[0] := []]) else sp, addrs)
      else NewHead(sp, if found == DECLINED then addrs else addrs[1..], key, head, cap, ok, live)
    ensures |sp.addrs| == |old_|
    ensures !HasList(old_, key, now) ==> HeadTaken(sp, Others(sp.addrs, old_, key, now), key, head, cap)
    ensures PushRoom(sp, old_, found, key, e, now, head, cap) <==> ok && SlabRoom.RoomIn(sp.g, live, NodeBytes(e))
  {
    LookedOthers(sp.addrs, old_, key, now, addrs, found);
    hide Find, Kept, Rest, SlabRoom.RoomIn;
    var alive := Kept(old_, 1, now);
    var k := Find(alive, key);
    if k < |alive| {
      var mine := sp.addrs[..|alive|];
      TouchedSame(mine, k);
      RestSame(if found == DONE then sp.(nodes := sp.nodes[addrs[0] := []]) else sp, addrs, mine);
    }
  }

  /** The most recent list with an element more. */
  lemma {:induction false} FitsPushed(caps: map<Off, nat>, addrs: seq<Off>, items: seq<Item>, nodes: map<Off, seq<Off>>,
                                      x: Off, left: bool, e: Elem)
    requires Fits(caps, addrs, items, nodes) && addrs != [] && NoDup(addrs) && items != [] && items[0].value.List? &&
      addrs[0] in nodes
    requires x in caps && NodeBytes(e) <= caps[x]
    ensures
      var ns := nodes[addrs[0]];
      Fits(caps, addrs, items[0 := items[0].(value := List(Pushed(items[0].value.elems, left, e)))],
           nodes[addrs[0] := if left then [x] + ns else ns + [x]])
  {
    FitsHead(caps, addrs, items, nodes, 0);
    hide Fits;
    var ns, elems := nodes[addrs[0]], items[0].value.elems;
    var ms := if left then [x] + ns else ns + [x];
    assert ElemsFit(caps, ms, Pushed(elems, left, e));
    FitsSet(caps, addrs, items, nodes, 0, items[0].(value := List(Pushed(elems, left, e))), ms);
  }

  /** The most recent list with an element less. */
  lemma {:induction false} FitsPopped(caps: map<Off, nat>, addrs: seq<Off>, items: seq<Item>, nodes: map<Off, seq<Off>>,
                                      m: nat)
    requires Fits(caps, addrs, items, nodes) && addrs != [] && NoDup(addrs) && items != [] && items[0].value.List? &&
      addrs[0] in nodes
    requires m < |nodes[addrs[0]]| && m < |items[0].value.elems|
    ensures
      Fits(caps, addrs, [items[0].(value := List(Dropped(items[0].value.elems, m)))] + items[1..],
           nodes[addrs[0] := Dropped(nodes[addrs[0]], m)])
  {
    FitsHead(caps, addrs, items, nodes, 0);
    hide Fits;
    var ns, elems := Dropped(nodes[addrs[0]], m), Dropped(items[0].value.elems, m);
    forall j | 0 <= j < |ns| ensures ns[j] in caps && NodeBytes(elems[j]) <= caps[ns[j]] {
      var i := if j < m then j else j + 1;
      assert ns[j] == nodes[addrs[0]][i] && elems[j] == items[0].value.elems[i];
    }
    var it := items[0].(value := List(elems));
    FitsSet(caps, addrs, items, nodes, 0, it, ns);
    assert items[0 := it] == [it] + items[1..];
  }

  /** A chunk just taken is not part of the list it will join. */
  lemma {:induction false} FreshElement(hash: Hash, s: Snap, x: Off)
    requires SnapOk(hash, s) && x !in s.live && s.addrs != [] && s.addrs[0] in s.nodes
    ensures x != s.addrs[0] && x !in s.nodes[s.addrs[0]]
    ensures forall z {:trigger z in Cells(s.addrs[0], s.nodes[s.addrs[0]])} ::
      z in Cells(s.addrs[0], s.nodes[s.addrs[0]]) <==> z == s.addrs[0] || z in s.nodes[s.addrs[0]]
  {
    AtFacts(hash, s, 0);
    NodesLive(hash, s, 0);
  }

  lemma {:induction false} PushedElems(ln: map<Off, LNode>, lm: map<Off, LNode>, ns: seq<Off>, elems: seq<Elem>, x: Off,
                                       left: bool, e: Elem)
    requires ElemsOk(ln, ns, elems) && x !in ns && lm == ln[x := LNode(e.kind, |e.data|, e.data)]
    requires e.kind == TSTRING || (e.kind == TNUMBER && |e.data| == NUMBER_BYTES)
    ensures ElemsOk(lm, if left then [x] + ns else ns + [x], Pushed(elems, left, e)) &&
      |Pushed(elems, left, e)| == |elems| + 1
    ensures Members(if left then [x] + ns else ns + [x]) == Members(ns) + {x}
  {
    var ms, fs := if left then [x] + ns else ns + [x], Pushed(elems, left, e);
    forall i | 0 <= i < |ms| ensures ElemOk(lm, ms[i], fs[i]) {
      var j := if left then i - 1 else i;
      if 0 <= j < |ns| { assert ms[i] == ns[j] && fs[i] == elems[j] && ElemOk(ln, ns[j], elems[j]) && ns[j] in ns; }
    }
  }

  lemma {:induction false} NoElems(ln: map<Off, LNode>)
    ensures ElemsOk(ln, [], [])
  {
  }

  /** Queue links written in a chunk that is not in use yet. */
  lemma {:induction false} ElsewhereOk(hash: Hash, s: Snap, t: Snap, a: Off)
    requires SnapOk(hash, s) && a !in s.live && t == s.(dq := t.dq)
    requires forall x {:trigger x in t.dq} :: x in s.dq && x != a ==> x in t.dq && t.dq[x] == s.dq[x]
    ensures SnapOk(hash, t)
  {
    forall i | 0 <= i < |s.addrs| ensures EntryAt(hash, t, i) {
      var b := s.addrs[i];
      AtFacts(hash, s, i);
      NodesLive(hash, s, i);
      assert EntryAt(hash, s, i) && b != a;
      forall x | x in s.nodes[b] && x in s.dq ensures x in t.dq && t.dq[x] == s.dq[x] { assert x != a; }
      EntryMoved(hash, s, t, b, s.items[i]);
    }
  }

  lemma {:induction false} NoneEmptyHead(items: seq<Item>, left: bool, e: Elem)
    requires items != [] && items[0].value.List? && NoneEmpty(items[1..])
    ensures items[0].value.elems != [] ==> NoneEmpty(items)
    ensures NoneEmpty([items[0].(value := List(Pushed(items[0].value.elems, left, e)))] + items[1..])
    ensures |Pushed(items[0].value.elems, left, e)| == |items[0].value.elems| + 1
  {
    NoneEmptyNew(items[1..], items[0].(value := List(Pushed(items[0].value.elems, left, e))));
    if items[0].value.elems != [] {
      NoneEmptyNew(items[1..], items[0]);
      assert items == [items[0]] + items[1..];
    }
  }

  lemma {:induction false} HeadNotEmpty(items: seq<Item>)
    requires NoneEmpty(items) && items != []
    ensures items[0].value.List? ==> items[0].value.elems != []
  {
    assert items[0] == items[0];
  }

  lemma {:induction false} OneMember(x: Off)
    ensures Members([x]) == {x} && forall a: Off {:trigger Cells(a, [x])} :: Cells(a, [x]) == {a, x}
  {
  }

  /** An element of the first list is allocated. */
  lemma {:induction false} ElementLive(hash: Hash, s: Snap, m: nat)
    requires SnapOk(hash, s) && s.addrs != [] && s.addrs[0] in s.nodes && m < |s.nodes[s.addrs[0]]|
    ensures s.nodes[s.addrs[0]][m] in s.live && s.nodes[s.addrs[0]][m] != s.addrs[0] &&
      s.addrs[0] !in s.nodes[s.addrs[0]]
    ensures
      var ns := s.nodes[s.addrs[0]];
      NoDup(ns) ==> s.live - {ns[m]} == s.live - Members(ns) + Members(Dropped(ns, m))
    ensures forall z {:trigger z in Cells(s.addrs[0], s.nodes[s.addrs[0]])} ::
      z in Cells(s.addrs[0], s.nodes[s.addrs[0]]) <==> z == s.addrs[0] || z in s.nodes[s.addrs[0]]
  {
    AtFacts(hash, s, 0);
    NodesLive(hash, s, 0);
    var ns := s.nodes[s.addrs[0]];
    assert Sep(s.h, s.addrs, s.nodes);
    if NoDup(ns) {
      DroppedIn(ns, m);
      assert ns[m] in ns;
      forall x ensures x in s.live - {ns[m]} <==> x in s.live - Members(ns) + Members(Dropped(ns, m)) {}
    }
  }

  lemma {:induction false} PoppedElems(ln: map<Off, LNode>, ns: seq<Off>, elems: seq<Elem>, m: nat)
    requires ElemsOk(ln, ns, elems) && m < |ns| && NoDup(ns)
    ensures m < |elems| && ElemsOk(ln, Dropped(ns, m), Dropped(elems, m)) && |Dropped(elems, m)| == |elems| - 1
    ensures (forall x {:trigger x in Dropped(ns, m)} :: x in Dropped(ns, m) ==> x in ns)
  {
    forall i | 0 <= i < |ns| - 1 ensures ElemOk(ln, Dropped(ns, m)[i], Dropped(elems, m)[i]) {
      var j := if i < m then i else i + 1;
      assert Dropped(ns, m)[i] == ns[j] && Dropped(elems, m)[i] == elems[j] && ElemOk(ln, ns[j], elems[j]);
    }
  }

  /** The records of the first list without the element at position `m`. */
  lemma {:induction false} PoppedEntry(hash: Hash, s: Snap, t: Snap, a: Off, it: Item, m: nat)
    requires SnapOk(hash, s) && s.addrs != [] && s.addrs[0] == a && s.items != [] && s.items[0].value.List? &&
      a in s.nodes && a in s.sd
    requires m < |s.nodes[a]| && m < |s.items[0].value.elems| && 0 < s.sd[a].valueLen
    requires it == s.items[0].(value := List(Dropped(s.items[0].value.elems, m)))
    requires t.payload == s.payload && t.sd == s.sd[a := s.sd[a].(valueLen := s.sd[a].valueLen - 1)] && t.ln == s.ln
    requires t.nodes == s.nodes[a := Dropped(s.nodes[a], m)] && Ring(t.dq, a, Dropped(s.nodes[a], m))
    ensures EntryOk(hash, t, a, it) && forall x {:trigger x in Dropped(s.nodes[a], m)} ::
      x in Dropped(s.nodes[a], m) ==> x in s.nodes[a]
  {
    AtFacts(hash, s, 0);
    ListFacts(hash, s, 0);
    PoppedElems(s.ln, s.nodes[a], s.items[0].value.elems, m);
    hide Ring, ElemsOk, Dropped;
  }

  /** After an element of the first list is gone. */
  lemma {:induction false} PoppedOk(hash: Hash, s: Snap, t: Snap, a: Off, m: nat)
    requires SnapOk(hash, s) && s.addrs != [] && s.addrs[0] == a && s.items != [] && s.items[0].value.List? &&
      a in s.nodes && a in s.sd
    requires m < |s.nodes[a]| && m < |s.items[0].value.elems| && 0 < s.sd[a].valueLen
    requires t == s.(items := [s.items[0].(value := List(Dropped(s.items[0].value.elems, m)))] + s.items[1..],
                     sd := s.sd[a := s.sd[a].(valueLen := s.sd[a].valueLen - 1)],
                       nodes := s.nodes[a := Dropped(s.nodes[a], m)],
                     dq := t.dq, live := s.live - {s.nodes[a][m]})
    requires Ring(t.dq, a, Dropped(s.nodes[a], m))
    requires forall z {:trigger z in t.dq} ::
      z in s.dq && z != a && z !in s.nodes[a] ==> z in t.dq && t.dq[z] == s.dq[z]
    ensures SnapOk(hash, t)
  {
    var it := t.items[0];
    PoppedEntry(hash, s, t, a, it, m);
    ElementLive(hash, s, m);
    ListFacts(hash, s, 0);
    assert t.items == s.items[0 := it];
    hide SnapOk, Ring, EntryOk, Members, Dropped;
    SetOk(hash, s, t, 0, it, t.nodes[a]);
  }

  /** After the only element of the first list is gone, and the entry with it. */
  lemma {:induction false} LastPoppedOk(hash: Hash, s: Snap, t: Snap, a: Off, x: Off, i: nat)
    requires SnapOk(hash, s) && s.addrs != [] && s.addrs[0] == a && s.items != [] && a in s.nodes && s.nodes[a] == [x]
    requires i < |s.order| && s.order[i] == a && a in s.payload && a in t.payload
    requires t == s.(lq := t.lq, dq := t.dq, addrs := Dropped(s.addrs, 0), items := Dropped(s.items, 0),
                     payload := s.payload[a := t.payload[a]], order := Dropped(s.order, i), live := s.live - {x} - {a})
    requires Ring(t.lq, t.h, Dropped(s.addrs, 0))
    requires forall z {:trigger z in t.dq} :: z in s.dq && z != a && z !in [x] ==> z in t.dq && t.dq[z] == s.dq[z]
    ensures SnapOk(hash, t)
  {
    OneMember(x);
    hide SnapOk, Ring, Members, Dropped;
    assert t.live == s.live - {a} - Members([x]);
    DropOk(hash, s, t, 0, i);
  }

  lemma {:induction false} PopNone(items: seq<Item>, m: nat)
    requires items != [] && NoneEmpty(items) && items[0].value.List? && m < |items[0].value.elems|
    ensures NoneEmpty(items[1..]) && |Dropped(items[0].value.elems, m)| == |items[0].value.elems| - 1
    ensures 1 < |items[0].value.elems| ==>
      NoneEmpty([items[0].(value := List(Dropped(items[0].value.elems, m)))] + items[1..])
  {
    NoneEmptyTouched(items, 0);
    DropFirst(items);
    if 1 < |items[0].value.elems| {
      NoneEmptyNew(items[1..], items[0].(value := List(Dropped(items[0].value.elems, m))));
    }
  }

  /** After the elements of the first list are gone. */
  lemma {:induction false} ResetOk(hash: Hash, s: Snap, t: Snap, a: Off, it: Item)
    requires SnapOk(hash, s) && s.addrs != [] && s.addrs[0] == a && s.items != [] && s.items[0].value.List? &&
      a in s.nodes && a in s.sd
    requires it == s.items[0].(value := List([]), expires := 0)
    requires t == s.(items := s.items[0 := it], sd := s.sd[a := s.sd[a].(expires := 0, valueLen := 0)],
                     nodes := s.nodes[a := []],
                     dq := t.dq, live := s.live - Members(s.nodes[a]))
    requires Ring(t.dq, a, []) && t.dq.Keys >= s.dq.Keys && forall z {:trigger z in t.dq} ::
      z in s.dq && z != a ==> t.dq[z] == s.dq[z]
    ensures SnapOk(hash, t)
  {
    NoMembers();
    AtFacts(hash, s, 0);
    ListFacts(hash, s, 0);
    hide SnapOk, Ring, Members;
    SetOk(hash, s, t, 0, it, []);
  }
}
