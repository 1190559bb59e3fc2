/** What each operation does, said of its outcome with the items written out: `a + [it] + b` is what
    expiry leaves, `it` the first of them with the key. */
module DictEffects {
  import opened RbShape
  import opened NgxString
  import opened Seqs
  import opened DictState
  import opened RbOrder
  import opened DictRoom
  import opened DictSpec
  import opened DictTime
  import opened DictLaws
  import SlabRoom

  /** The item with the key, and what is around it, once up to two items have expired. */
  ghost predicate Around(old_: seq<Item>, now: uint64, key: seq<byte>, a: seq<Item>, it: Item, b: seq<Item>) {
    Kept(old_, 1, now) == a + [it] + b && NoKey(a, key) && it.key == key
  }

  /** There is none. */
  ghost predicate Absent(old_: seq<Item>, now: uint64, key: seq<byte>) {
    NoKey(Kept(old_, 1, now), key)
  }

  /** The item has no expiry, or one that is not behind the clock. */
  predicate Live(it: Item, now: uint64) {
    it.expires == 0 || (it.expires - now) % WORD < HALF
  }

  lemma {:induction false} AroundSeen(old_: seq<Item>, now: uint64, later: uint64, key: seq<byte>, a: seq<Item>,
                                      it: Item, b: seq<Item>)
    requires Around(old_, now, key, a, it, b)
    ensures LookedUp(Kept(old_, 1, now), key) == [it] + (a + b) && ([it] + (a + b))[1..] == a + b
    ensures LookupRc(Kept(old_, 1, now), key, later) == if Live(it, later) then OK else DONE
  {
    LookupLive(a, it, b, later);
    hide LookedUp, LookupRc, Kept;
    assert [it] + a + b == [it] + (a + b);
  }

  lemma {:induction false} AbsentSeen(old_: seq<Item>, now: uint64, later: uint64, key: seq<byte>)
    requires Absent(old_, now, key)
    ensures LookedUp(Kept(old_, 1, now), key) == Kept(old_, 1, now)
    ensures LookupRc(Kept(old_, 1, now), key, later) == DECLINED
  {
    LookupNone(Kept(old_, 1, now), key, later);
  }

  // ---------- store ----------

  /** A new item in front of the others; or, when there is no room, only the others. Of those
      `dropped` are gone from the end. */
  ghost predicate NewInFront(others: seq<Item>, items: seq<Item>, key: seq<byte>, value: Value, flags: int, rc: Rc,
                             forcible: bool, dropped: nat) {
    dropped <= |others| && (forcible <==> 0 < dropped) && (rc == OK || rc == ERROR) &&
    (rc == OK ==> InFront(others[..|others| - dropped], items, key, value, flags)) &&
    (rc == ERROR ==> items == others[..|others| - dropped])
  }

  ghost predicate InFront(others: seq<Item>, items: seq<Item>, key: seq<byte>, value: Value, flags: int) {
    items != [] && items[0] == Item(key, value, flags, items[0].expires) && items[1..] == others
  }

  lemma {:induction false} NewShape(sp: Space, keep: seq<Off>, rest: seq<Item>, items: seq<Item>, it: Item, n: nat,
                                    safe: bool, clock: nat -> uint64, rc: Rc, forcible: bool, dropped: nat)
    requires NewResult(sp, keep, rest, items, it, n, safe, clock, rc, forcible, dropped)
    ensures NewInFront(rest, items, it.key, it.value, it.flags, rc, forcible, dropped) && (safe ==> dropped == 0)
    ensures rc == OK ==> items != [] && items[0] == it
  {
    hide RoomWith, ForcedCount;
  }

  /** A put where an item was found. */
  lemma {:induction false} PutFound(sp: Space, keep: seq<Off>, was: Item, rest: seq<Item>, items: seq<Item>,
                                    buf: Option<seq<byte>>, it: Item, safe: bool, clock: nat -> uint64, rc: Rc,
                                    forcible: bool, dropped: nat)
    requires PutResult(sp, keep, [was] + rest, true, items, buf, it, safe, clock, rc, forcible, dropped)
    ensures buf.None? ==> rc == OK && items == rest && !forcible
    ensures buf.Some? && was.value.Scalar? && |was.value.data| == |buf.value| ==>
      rc == OK && InFront(rest, items, it.key, it.value, it.flags) && !forcible
    ensures buf.Some? && !(was.value.Scalar? && |was.value.data| == |buf.value|) ==>
      NewInFront(rest, items, it.key, it.value, it.flags, rc, forcible, dropped) && (safe ==> dropped == 0)
    ensures buf.Some? && rc == OK ==> items != [] && items[0] == it
  {
    hide NewResult, NewInFront;
    assert ([was] + rest)[1..] == rest;
    if buf.Some? && !(was.value.Scalar? && |was.value.data| == |buf.value|) {
      NewShape(sp, keep, rest, items, it, EntryBytes(it.key, |buf.value|), safe, clock, rc, forcible, dropped);
    }
  }

  /** A put where there was none. */
  lemma {:induction false} PutAbsent(sp: Space, keep: seq<Off>, seen: seq<Item>, items: seq<Item>,
                                     buf: Option<seq<byte>>, it: Item, safe: bool, clock: nat -> uint64, rc: Rc,
                                     forcible: bool, dropped: nat)
    requires PutResult(sp, keep, seen, false, items, buf, it, safe, clock, rc, forcible, dropped)
    ensures buf.None? ==> rc == OK && items == seen && !forcible
    ensures buf.Some? ==>
      NewInFront(seen, items, it.key, it.value, it.flags, rc, forcible, dropped) && (safe ==> dropped == 0)
    ensures buf.Some? && rc == OK ==> items != [] && items[0] == it
  {
    hide NewResult, NewInFront;
    if buf.Some? {
      NewShape(sp, keep, seen, items, it, EntryBytes(it.key, |buf.value|), safe, clock, rc, forcible, dropped);
    }
  }

  /** A store of a key that has an item. An add of a live key, and a replace of one that has
      expired, are declined and change nothing but the order. A value of the same length is
      written over whatever the memory holds. Nothing takes the item away, and only it. In any other
      case the item goes, and a new one is put in front if there is room. */
  lemma {:induction false} StoreFound(sp: Space, old_: seq<Item>, items: seq<Item>, op: StoreOp, key: seq<byte>,
                                      kind: nat, buf: Option<seq<byte>>, exptime: int, flags: int,
                                      clock: nat -> uint64, rc: Rc, forcible: bool, dropped: nat, a: seq<Item>,
                                      it: Item, b: seq<Item>)
    requires StoreResult(sp, old_, items, op, key, kind, buf, exptime, flags, clock, rc, forcible, dropped)
    requires Around(old_, clock(0), key, a, it, b)
    ensures
      var declined := if op.replace then !Live(it, clock(1)) else op.add && Live(it, clock(1));
      if declined then rc == DECLINED && items == [it] + (a + b) && !forcible
      else if buf.None? then rc == OK && items == a + b && !forcible
      else if it.value.Scalar? && |it.value.data| == |buf.value|
      then rc == OK && InFront(a + b, items, key, Scalar(kind, buf.value), flags) && !forcible
      else
        NewInFront(a + b, items, key, Scalar(kind, buf.value), flags, rc, forcible, dropped) &&
        (op.safe ==> dropped == 0)
  {
    AroundSeen(old_, clock(0), clock(1), key, a, it, b);
    var keep := Others(sp.addrs, old_, key, clock(0));
    var new_ := Item(key, Scalar(kind, if buf.Some? then buf.value else []), flags, ExpiresAt(exptime, clock(2)));
    hide PutResult, Kept, LookedUp, LookupRc, Live, ExpiresAt, NewInFront, InFront, Around;
    if !((op.replace && !Live(it, clock(1))) || (!op.replace && op.add && Live(it, clock(1)))) {
      PutFound(sp, keep, it, a + b, items, buf, new_, op.safe, clock, rc, forcible, dropped);
    }
  }

  /** A store of a key that has none. */
  lemma {:induction false} StoreAbsent(sp: Space, old_: seq<Item>, items: seq<Item>, op: StoreOp, key: seq<byte>,
                                       kind: nat, buf: Option<seq<byte>>, exptime: int, flags: int,
                                       clock: nat -> uint64, rc: Rc, forcible: bool, dropped: nat)
    requires StoreResult(sp, old_, items, op, key, kind, buf, exptime, flags, clock, rc, forcible, dropped)
    requires Absent(old_, clock(0), key)
    ensures
      var alive := Kept(old_, 1, clock(0));
      if op.replace then rc == DECLINED && items == alive && !forcible
      else if buf.None? then rc == OK && items == alive && !forcible
      else
        NewInFront(alive, items, key, Scalar(kind, buf.value), flags, rc, forcible, dropped) &&
        (op.safe ==> dropped == 0)
  {
    AbsentSeen(old_, clock(0), clock(1), key);
    var keep := Others(sp.addrs, old_, key, clock(0));
    var new_ := Item(key, Scalar(kind, if buf.Some? then buf.value else []), flags, ExpiresAt(exptime, clock(2)));
    hide PutResult, Kept, LookedUp, LookupRc, ExpiresAt, NewInFront, Absent;
    if !op.replace {
      PutAbsent(sp, keep, Kept(old_, 1, clock(0)), items, buf, new_, op.safe, clock, rc, forcible, dropped);
    }
  }

  /** What a successful store has written is in front. */
  lemma {:induction false} StoredFront(sp: Space, old_: seq<Item>, items: seq<Item>, op: StoreOp, key: seq<byte>,
                                       kind: nat, buf: Option<seq<byte>>, exptime: int, flags: int,
                                       clock: nat -> uint64, rc: Rc, forcible: bool, dropped: nat)
    requires StoreResult(sp, old_, items, op, key, kind, buf, exptime, flags, clock, rc, forcible, dropped)
    requires rc == OK && buf.Some?
    ensures items != [] &&
      items[0] == Item(key, Scalar(kind, buf.value), flags, ExpiresAt(exptime, clock(2)))
  {
    var alive, keep := Kept(old_, 1, clock(0)), Others(sp.addrs, old_, key, clock(0));
    var found, seen := LookupRc(alive, key, clock(1)), LookedUp(alive, key);
    var it := Item(key, Scalar(kind, buf.value), flags, ExpiresAt(exptime, clock(2)));
    hide PutResult, Kept, LookedUp, LookupRc, ExpiresAt, Others;
    if found != DECLINED && seen != [] {
      assert seen == [seen[0]] + seen[1..];
      PutFound(sp, keep, seen[0], seen[1..], items, buf, it, op.safe, clock, rc, forcible, dropped);
    } else {
      PutAlone(sp, keep, seen, found != DECLINED, items, buf, it, op.safe, clock, rc, forcible, dropped);
    }
  }

  lemma {:induction false} PutAlone(sp: Space, keep: seq<Off>, seen: seq<Item>, found: bool, items: seq<Item>,
                                    buf: Option<seq<byte>>, it: Item, safe: bool, clock: nat -> uint64, rc: Rc,
                                    forcible: bool, dropped: nat)
    requires PutResult(sp, keep, seen, found, items, buf, it, safe, clock, rc, forcible, dropped) && buf.Some?
    requires rc == OK && (!found || seen == [])
    ensures items != [] && items[0] == it
  {
    hide NewResult, NewInFront;
    NewShape(sp, keep, seen, items, it, EntryBytes(it.key, |buf.value|), safe, clock, rc, forcible, dropped);
  }

  /** After a store that has written a value the item lives as long as it was told, by the clock
      that the store has read. */
  lemma {:induction false} StoredLives(sp: Space, old_: seq<Item>, items: seq<Item>, op: StoreOp, key: seq<byte>,
                                       kind: nat, buf: Option<seq<byte>>, exptime: int, flags: int,
                                       clock: nat -> uint64, rc: Rc, forcible: bool, dropped: nat)
    requires StoreResult(sp, old_, items, op, key, kind, buf, exptime, flags, clock, rc, forcible, dropped)
    requires rc == OK && buf.Some?
    ensures TimeGiven(items, key, clock(2), exptime)
  {
    StoredFront(sp, old_, items, op, key, kind, buf, exptime, flags, clock, rc, forcible, dropped);
    assert items == [] + [items[0]] + items[1..];
    hide StoreResult, TimeGiven, ExpiresAt;
    TimeOf([], items[0], items[1..], clock(2), exptime);
  }

  /** The value bytes of the kinds: those of a string and of a number come back as they were given,
      a boolean as one byte, 1 or 0; nil has none. */
  predicate BytesAre(valueType: int, str: Option<seq<byte>>, num: seq<byte>, nonzero: bool, data: seq<byte>) {
    (valueType == TSTRING && str == Some(data)) || (valueType == TNUMBER && data == num) ||
    (valueType == TBOOLEAN && data == if nonzero then [1] else [0])
  }

  lemma {:induction false} KindBytes(valueType: nat, str: Option<seq<byte>>, num: seq<byte>, nonzero: bool)
    requires valueType == TSTRING || valueType == TNUMBER || valueType == TBOOLEAN || valueType == TNIL
    ensures
      var buf := ValueBytes(valueType, str, num, nonzero);
      (buf.Some? ==> BytesAre(valueType, str, num, nonzero, buf.value)) &&
      (buf.None? <==> valueType == TNIL || (valueType == TSTRING && str == None))
  {
  }

  /** A get of the item in front, `d` milliseconds after the clock showed `c`. */
  lemma {:induction false} FrontGet(items: seq<Item>, c: uint64, exptime: int, d: nat, items2: seq<Item>, rc: Rc,
                                    value: Option<(nat, seq<byte>)>, flags: int, stale: bool)
    requires items != [] && items[0].value.Scalar? && TimeGiven(items, items[0].key, c, exptime)
    requires GetResult(items, items2, items[0].key, (c + d) % WORD, false, rc, value, flags, stale)
    requires exptime < HALF && d < HALF
    ensures rc == OK && items2 == items
    ensures exptime <= 0 || d <= exptime || (c + exptime) % WORD == 0 ==>
      value == Some((items[0].value.kind, items[0].value.data)) && flags == items[0].flags && !stale
    ensures 0 < exptime < d && (c + exptime) % WORD != 0 ==> value == None
  {
    var it, now := items[0], (c + d) % WORD;
    assert items == [] + [it] + items[1..];
    hide GetResult, LookupRc, TtlResult, LookedUp;
    assert 0 < exptime && (c + exptime) % WORD != 0 ==> LivesAt(items, it.key, c, exptime, d);
    LookupLive([], it, items[1..], now);
    GetLive([], it, items[1..], items2, now, false, rc, value, flags, stale);
  }

  /** Set and get: what is stored is what a get returns, with its flags, `d` milliseconds later if
      the time to live is not over by then, and no value if it is. */
  lemma {:induction false} StoreGet(sp: Space, old_: seq<Item>, items: seq<Item>, op: StoreOp, key: seq<byte>,
                                    valueType: nat, str: Option<seq<byte>>, num: seq<byte>, nonzero: bool, exptime: int,
                                    flags: int, clock: nat -> uint64, rc: Rc, forcible: bool, dropped: nat, d: nat,
                                    items2: seq<Item>, rc2: Rc, value: Option<(nat, seq<byte>)>, flags2: int,
                                    stale: bool)
    requires StoreResult(sp, old_, items, op, key, valueType, ValueBytes(valueType, str, num, nonzero), exptime, flags,
                         clock, rc, forcible, dropped)
    requires rc == OK && (valueType == TNUMBER || valueType == TBOOLEAN || (valueType == TSTRING && str.Some?))
    requires GetResult(items, items2, key, (clock(2) + d) % WORD, false, rc2, value, flags2, stale)
    requires exptime < HALF && d < HALF
    ensures rc2 == OK && items2 == items
    ensures exptime <= 0 || d <= exptime || (clock(2) + exptime) % WORD == 0 ==>
      value.Some? && value.value.0 == valueType && BytesAre(valueType, str, num, nonzero, value.value.1) &&
      flags2 == flags && !stale
    ensures 0 < exptime < d && (clock(2) + exptime) % WORD != 0 ==> value == None
  {
    hide StoreResult, GetResult, ExpiresAt, BytesAre, ValueBytes, TimeGiven;
    var buf := ValueBytes(valueType, str, num, nonzero);
    KindBytes(valueType, str, num, nonzero);
    StoredFront(sp, old_, items, op, key, valueType, buf, exptime, flags, clock, rc, forcible, dropped);
    StoredLives(sp, old_, items, op, key, valueType, buf, exptime, flags, clock, rc, forcible, dropped);
    FrontGet(items, clock(2), exptime, d, items2, rc2, value, flags2, stale);
  }

  /** Around the item of a key there is none of that key. */
  lemma {:induction false} ApartAround(old_: seq<Item>, now: uint64, key: seq<byte>, a: seq<Item>, it: Item,
                                       b: seq<Item>)
    requires KeysApart(old_) && Around(old_, now, key, a, it, b)
    ensures NoKey(a + b, key)
  {
    var alive := Kept(old_, 1, now);
    hide Kept;
    forall x | x in b ensures x.key != key {
      var j :| 0 <= j < |b| && b[j] == x;
      assert old_[|a|] == alive[|a|] == it && old_[|a| + 1 + j] == alive[|a| + 1 + j] == x;
    }
  }

  /** After a set of nothing, which a delete is, no item has the key, and all others are there. */
  lemma {:induction false} Deleted(sp: Space, old_: seq<Item>, items: seq<Item>, safe: bool, key: seq<byte>, kind: nat,
                                   exptime: int, flags: int, clock: nat -> uint64, rc: Rc, forcible: bool, dropped: nat,
                                   a: seq<Item>, it: Item, b: seq<Item>)
    requires StoreResult(sp, old_, items, StoreOp(false, false, safe), key, kind, None, exptime, flags, clock, rc,
                         forcible, dropped)
    requires KeysApart(old_)
    ensures Around(old_, clock(0), key, a, it, b) ==> rc == OK && items == a + b && NoKey(items, key)
    ensures Absent(old_, clock(0), key) ==> rc == OK && items == Kept(old_, 1, clock(0)) && NoKey(items, key)
  {
    hide StoreResult, KeysApart, NoKey;
    if Around(old_, clock(0), key, a, it, b) {
      StoreFound(sp, old_, items, StoreOp(false, false, safe), key, kind, None, exptime, flags, clock, rc, forcible,
                 dropped, a, it, b);
      ApartAround(old_, clock(0), key, a, it, b);
    }
    if Absent(old_, clock(0), key) {
      StoreAbsent(sp, old_, items, StoreOp(false, false, safe), key, kind, None, exptime, flags, clock, rc, forcible,
                  dropped);
    }
  }

  // ---------- incr ----------

  /** An incr of a key that has an item. A live number grows in place and keeps its flags and
      expiry, any other live value is an error; an item that has expired makes way for a new number,
      if there is an initial value. */
  lemma {:induction false} IncrFound(sp: Space, old_: seq<Item>, items: seq<Item>, key: seq<byte>, value: seq<byte>,
                                     hasInit: bool, init: seq<byte>, initTtl: int,
                                     plus: (seq<byte>, seq<byte>) -> seq<byte>, clock: nat -> uint64, rc: Rc,
                                     result: seq<byte>, forcible: bool, dropped: nat, a: seq<Item>, it: Item,
                                     b: seq<Item>)
    requires IncrResult(sp, old_, items, key, value, hasInit, init, initTtl, plus, clock, rc, result, forcible, dropped)
    requires Around(old_, clock(0), key, a, it, b)
    ensures
      var num := plus(value, init);
      if Live(it, clock(1)) then
        match it.value {
          case Scalar(kind, data) => kind == TNUMBER ==>
            rc == OK && result == plus(data, value) && !forcible &&
            items == [it.(value := Scalar(TNUMBER, plus(data, value)))] + (a + b)
          case List(_) => true
        }
      else hasInit && it.value.Scalar? && |it.value.data| == |num| ==>
        rc == OK && InFront(a + b, items, key, Scalar(TNUMBER, num), 0) && !forcible
    ensures Live(it, clock(1)) && !(it.value.Scalar? && it.value.kind == TNUMBER) ==>
      rc == ERROR && items == [it] + (a + b) && !forcible
    ensures !Live(it, clock(1)) && !hasInit ==> rc == ERROR && items == [it] + (a + b) && !forcible
    ensures !Live(it, clock(1)) && hasInit && !(it.value.Scalar? && |it.value.data| == |plus(value, init)|) ==>
      NewInFront(a + b, items, key, Scalar(TNUMBER, plus(value, init)), 0, rc, forcible, dropped)
    ensures !Live(it, clock(1)) && rc == OK ==> result == plus(value, init)
  {
    AroundSeen(old_, clock(0), clock(1), key, a, it, b);
    var keep, num := Others(sp.addrs, old_, key, clock(0)), plus(value, init);
    var new_ := Item(key, Scalar(TNUMBER, num), 0, ExpiresAt(initTtl, clock(2)));
    hide PutResult, Kept, LookedUp, LookupRc, Live, ExpiresAt, NewInFront, InFront, Around, Others;
    if !Live(it, clock(1)) && hasInit {
      PutFound(sp, keep, it, a + b, items, Some(num), new_, false, clock, rc, forcible, dropped);
    }
  }

  /** An incr of a key that has none. */
  lemma {:induction false} IncrAbsent(sp: Space, old_: seq<Item>, items: seq<Item>, key: seq<byte>, value: seq<byte>,
                                      hasInit: bool, init: seq<byte>, initTtl: int,
                                      plus: (seq<byte>, seq<byte>) -> seq<byte>, clock: nat -> uint64, rc: Rc,
                                      result: seq<byte>, forcible: bool, dropped: nat)
    requires IncrResult(sp, old_, items, key, value, hasInit, init, initTtl, plus, clock, rc, result, forcible, dropped)
    requires Absent(old_, clock(0), key)
    ensures
      var alive := Kept(old_, 1, clock(0));
      if !hasInit then rc == ERROR && items == alive && !forcible
      else
        NewInFront(alive, items, key, Scalar(TNUMBER, plus(value, init)), 0, rc, forcible, dropped) &&
        (rc == OK ==> result == plus(value, init))
  {
    AbsentSeen(old_, clock(0), clock(1), key);
    var keep, num := Others(sp.addrs, old_, key, clock(0)), plus(value, init);
    var new_ := Item(key, Scalar(TNUMBER, num), 0, ExpiresAt(initTtl, clock(2)));
    hide PutResult, Kept, LookedUp, LookupRc, ExpiresAt, NewInFront, Absent, Others;
    if hasInit {
      PutAbsent(sp, keep, Kept(old_, 1, clock(0)), items, Some(num), new_, false, clock, rc, forcible, dropped);
    }
  }

  lemma {:induction false} IncrNew(sp: Space, old_: seq<Item>, items: seq<Item>, key: seq<byte>, value: seq<byte>,
                                   hasInit: bool, init: seq<byte>, initTtl: int,
                                   plus: (seq<byte>, seq<byte>) -> seq<byte>, clock: nat -> uint64, rc: Rc,
                                   result: seq<byte>, forcible: bool, dropped: nat)
    requires IncrResult(sp, old_, items, key, value, hasInit, init, initTtl, plus, clock, rc, result, forcible, dropped)
    requires rc == OK && LookupRc(Kept(old_, 1, clock(0)), key, clock(1)) != OK
    ensures result == plus(value, init) && items != [] &&
      items[0] == Item(key, Scalar(TNUMBER, result), 0, ExpiresAt(initTtl, clock(2)))
  {
    var alive, keep, num := Kept(old_, 1, clock(0)), Others(sp.addrs, old_, key, clock(0)), plus(value, init);
    var found, seen := LookupRc(alive, key, clock(1)), LookedUp(alive, key);
    var it := Item(key, Scalar(TNUMBER, num), 0, ExpiresAt(initTtl, clock(2)));
    hide PutResult, Kept, LookedUp, LookupRc, ExpiresAt, Others;
    if found == DONE && seen != [] {
      assert seen == [seen[0]] + seen[1..];
      PutFound(sp, keep, seen[0], seen[1..], items, Some(num), it, false, clock, rc, forcible, dropped);
    } else {
      PutAlone(sp, keep, seen, found == DONE, items, Some(num), it, false, clock, rc, forcible, dropped);
    }
  }

  lemma {:induction false} FoundHead(items: seq<Item>, key: seq<byte>, now: uint64)
    requires LookupRc(items, key, now) == OK
    ensures LookedUp(items, key) != [] && LookedUp(items, key)[0].key == key
  {
  }

  /** Whenever an incr succeeds, what it returns is what it has stored. */
  lemma {:induction false} IncrStored(sp: Space, old_: seq<Item>, items: seq<Item>, key: seq<byte>, value: seq<byte>,
                                      hasInit: bool, init: seq<byte>, initTtl: int,
                                      plus: (seq<byte>, seq<byte>) -> seq<byte>, clock: nat -> uint64, rc: Rc,
                                      result: seq<byte>, forcible: bool, dropped: nat)
    requires IncrResult(sp, old_, items, key, value, hasInit, init, initTtl, plus, clock, rc, result, forcible, dropped)
    requires rc == OK
    ensures items != [] && items[0].key == key && items[0].value == Scalar(TNUMBER, result) && Find(items, key) == 0
  {
    var alive := Kept(old_, 1, clock(0));
    if LookupRc(alive, key, clock(1)) == OK {
      FoundHead(alive, key, clock(1));
    } else {
      IncrNew(sp, old_, items, key, value, hasInit, init, initTtl, plus, clock, rc, result, forcible, dropped);
    }
    hide Kept, LookupRc, LookedUp, PutResult, Find;
    Front(items);
  }

  /** After an incr that has made its number from the initial value the item lives as long as it
      was told. */
  lemma {:induction false} IncrLives(sp: Space, old_: seq<Item>, items: seq<Item>, key: seq<byte>, value: seq<byte>,
                                     hasInit: bool, init: seq<byte>, initTtl: int,
                                     plus: (seq<byte>, seq<byte>) -> seq<byte>, clock: nat -> uint64, rc: Rc,
                                     result: seq<byte>, forcible: bool, dropped: nat)
    requires IncrResult(sp, old_, items, key, value, hasInit, init, initTtl, plus, clock, rc, result, forcible, dropped)
    requires rc == OK && LookupRc(Kept(old_, 1, clock(0)), key, clock(1)) != OK
    ensures TimeGiven(items, key, clock(2), initTtl)
  {
    IncrNew(sp, old_, items, key, value, hasInit, init, initTtl, plus, clock, rc, result, forcible, dropped);
    assert items == [] + [items[0]] + items[1..];
    hide IncrResult, TimeGiven, ExpiresAt, LookupRc, Kept;
    TimeOf([], items[0], items[1..], clock(2), initTtl);
  }

  /** An item in front that is not over stays in front through the next expiry. */
  lemma {:induction false} FrontStays(items: seq<Item>, now: uint64)
    requires items != [] && !Over(items[0], now)
    ensures Kept(items, 1, now) != [] && Kept(items, 1, now)[0] == items[0]
  {
    OverDue(items[0], now);
    ExpireSuffix(items, 1, now);
    hide Over, Due;
    assert items[0] == items[0];
  }

  /** The item that was in front is found live again, and its neighbours. */
  lemma {:induction false} FrontAround(items: seq<Item>, now: uint64, later: uint64) returns (b: seq<Item>)
    requires items != [] && !Over(items[0], now) && Live(items[0], later)
    ensures Around(items, now, items[0].key, [], items[0], b)
    ensures LookupRc(Kept(items, 1, now), items[0].key, later) == OK
  {
    FrontStays(items, now);
    hide Over, Live, Kept, LookupRc;
    b := Kept(items, 1, now)[1..];
    assert Kept(items, 1, now) == [] + [items[0]] + b;
    AroundSeen(items, now, later, items[0].key, [], items[0], b);
  }

  /** A get after an incr returns the sum, while the number is live. */
  lemma {:induction false} IncrGet(sp: Space, old_: seq<Item>, items: seq<Item>, key: seq<byte>, value: seq<byte>,
                                   hasInit: bool, init: seq<byte>, initTtl: int,
                                   plus: (seq<byte>, seq<byte>) -> seq<byte>, clock: nat -> uint64, rc: Rc,
                                   result: seq<byte>, forcible: bool, dropped: nat, items2: seq<Item>, now: uint64,
                                   rc2: Rc, got: Option<(nat, seq<byte>)>, flags: int, stale: bool)
    requires IncrResult(sp, old_, items, key, value, hasInit, init, initTtl, plus, clock, rc, result, forcible, dropped)
    requires rc == OK && items != [] && Live(items[0], now)
    requires GetResult(items, items2, key, now, false, rc2, got, flags, stale)
    ensures rc2 == OK && got == Some((TNUMBER, result)) && items2 == items
  {
    hide GetResult, IncrResult;
    IncrStored(sp, old_, items, key, value, hasInit, init, initTtl, plus, clock, rc, result, forcible, dropped);
    assert items == [] + [items[0]] + items[1..];
    GetLive([], items[0], items[1..], items2, now, false, rc2, got, flags, stale);
  }

  /** Two incrs in a row add twice: the number is not over when the second one removes what has
      expired, and is live when it is looked up. */
  lemma {:induction false} IncrTwice(sp: Space, old_: seq<Item>, items: seq<Item>, key: seq<byte>, value: seq<byte>,
                                     hasInit: bool, init: seq<byte>, initTtl: int,
                                     plus: (seq<byte>, seq<byte>) -> seq<byte>, clock: nat -> uint64, rc: Rc,
                                     result: seq<byte>, forcible: bool, dropped: nat, sp2: Space, items2: seq<Item>,
                                     value2: seq<byte>, hasInit2: bool, init2: seq<byte>, initTtl2: int,
                                     clock2: nat -> uint64, rc2: Rc, result2: seq<byte>, forcible2: bool, dropped2: nat)
    requires IncrResult(sp, old_, items, key, value, hasInit, init, initTtl, plus, clock, rc, result, forcible, dropped)
    requires IncrResult(sp2, items, items2, key, value2, hasInit2, init2, initTtl2, plus, clock2, rc2, result2,
                        forcible2, dropped2)
    requires rc == OK && items != [] && !Over(items[0], clock2(0)) && Live(items[0], clock2(1))
    ensures rc2 == OK && result2 == plus(result, value2) && !forcible2
    ensures items2 != [] && items2[0] == items[0].(value := Scalar(TNUMBER, result2))
  {
    IncrStored(sp, old_, items, key, value, hasInit, init, initTtl, plus, clock, rc, result, forcible, dropped);
    var b := FrontAround(items, clock2(0), clock2(1));
    hide IncrResult, Over, Around, Live, LookupRc, Kept;
    IncrFound(sp2, items, items2, key, value2, hasInit2, init2, initTtl2, plus, clock2, rc2, result2, forcible2,
              dropped2, [], items[0], b);
  }

  // ---------- lists ----------

  /** A list of one element, without expiry, in front of the others. */
  ghost predicate OneElement(others: seq<Item>, items: seq<Item>, key: seq<byte>, e: Elem, len: nat) {
    items != [] && items[1..] == others && items[0].key == key && items[0].value == List([e]) &&
    items[0].expires == 0 &&
    len == 1
  }

  lemma {:induction false} PushedFound(was: Item, rest: seq<Item>, found: Rc, items: seq<Item>, key: seq<byte>,
                                       left: bool, e: Elem, room: bool, rc: Rc, len: nat)
    requires PushedItems([was] + rest, found, items, key, left, e, room, rc, len) && (found == OK || found == DONE)
    ensures rc == OK || rc == ERROR
    ensures found == OK && was.value.Scalar? ==> rc == ERROR
    ensures rc == ERROR ==> items == if found == OK then [was] + rest else rest
    ensures found == OK && rc == OK ==>
      was.value.List? && len == |was.value.elems| + 1 && items != [] && items[1..] == rest &&
      items[0] == was.(value := List(if left then [e] + was.value.elems else was.value.elems + [e]))
    ensures found == DONE && rc == OK ==> OneElement(rest, items, key, e, len)
  {
    assert ([was] + rest)[1..] == rest;
    assert [e] + [] == [e] && [] + [e] == [e];
  }

  lemma {:induction false} PushedAbsent(seen: seq<Item>, items: seq<Item>, key: seq<byte>, left: bool, e: Elem,
                                        room: bool, rc: Rc, len: nat)
    requires PushedItems(seen, DECLINED, items, key, left, e, room, rc, len)
    ensures rc == OK || rc == ERROR
    ensures rc == OK ==> OneElement(seen, items, key, e, len)
    ensures rc == ERROR ==> items == seen
  {
    assert [e] + [] == [e] && [] + [e] == [e];
  }

  /** A push to a key that has an item. A live list grows on the side asked for, and keeps flags and
      expiry; a live value of another kind is an error; what has expired makes way for a list of one
      element. Without room a live list stays as it is, and what has expired is gone. */
  lemma {:induction false} PushFound(sp: Space, old_: seq<Item>, items: seq<Item>, key: seq<byte>, left: bool, e: Elem,
                                     clock: nat -> uint64, head: Off, cap: nat, rc: Rc, len: nat, a: seq<Item>,
                                     it: Item, b: seq<Item>)
    requires PushResult(sp, old_, items, key, left, e, clock, head, cap, rc, len)
    requires Around(old_, clock(0), key, a, it, b)
    ensures rc == OK || rc == ERROR
    ensures Live(it, clock(1)) && it.value.Scalar? ==> rc == ERROR
    ensures Live(it, clock(1)) && rc == ERROR ==> items == [it] + (a + b)
    ensures Live(it, clock(1)) && rc == OK ==>
      it.value.List? && len == |it.value.elems| + 1 && items != [] && items[1..] == a + b &&
      items[0] == it.(value := List(if left then [e] + it.value.elems else it.value.elems + [e]))
    ensures !Live(it, clock(1)) && rc == OK ==> OneElement(a + b, items, key, e, len)
    ensures !Live(it, clock(1)) && rc == ERROR ==> items == a + b
  {
    AroundSeen(old_, clock(0), clock(1), key, a, it, b);
    var found := LookupRc(Kept(old_, 1, clock(0)), key, clock(1));
    var room := PushRoom(sp, old_, found, key, e, clock(0), head, cap);
    hide Kept, LookedUp, LookupRc, Live, Around, PushRoom, HeadTaken, HasList, PushedItems, OneElement;
    PushedFound(it, a + b, found, items, key, left, e, room, rc, len);
  }

  /** A push to a key that has none. */
  lemma {:induction false} PushAbsent(sp: Space, old_: seq<Item>, items: seq<Item>, key: seq<byte>, left: bool, e: Elem,
                                      clock: nat -> uint64, head: Off, cap: nat, rc: Rc, len: nat)
    requires PushResult(sp, old_, items, key, left, e, clock, head, cap, rc, len)
    requires Absent(old_, clock(0), key)
    ensures rc == OK || rc == ERROR
    ensures rc == OK ==> OneElement(Kept(old_, 1, clock(0)), items, key, e, len)
    ensures rc == ERROR ==> items == Kept(old_, 1, clock(0))
  {
    AbsentSeen(old_, clock(0), clock(1), key);
    var alive := Kept(old_, 1, clock(0));
    var room := PushRoom(sp, old_, DECLINED, key, e, clock(0), head, cap);
    hide Kept, LookedUp, LookupRc, Absent, PushRoom, HeadTaken, HasList, PushedItems, OneElement;
    PushedAbsent(alive, items, key, left, e, room, rc, len);
  }

  /** The list that an operation finds: the elements of a live list, otherwise none. */
  ghost predicate Found(old_: seq<Item>, key: seq<byte>, clock: nat -> uint64, elems: seq<Elem>) {
    var alive := Kept(old_, 1, clock(0));
    if LookupRc(alive, key, clock(1)) == OK
    then LookedUp(alive, key) != [] && LookedUp(alive, key)[0].value == List(elems)
    else elems == []
  }

  /** After a push the list is the one that was there with the element at the side asked for. */
  lemma {:induction false} PushedList(sp: Space, old_: seq<Item>, items: seq<Item>, key: seq<byte>, left: bool, e: Elem,
                                      clock: nat -> uint64, head: Off, cap: nat, rc: Rc, len: nat, elems: seq<Elem>)
    requires PushResult(sp, old_, items, key, left, e, clock, head, cap, rc, len) && rc == OK
    requires Found(old_, key, clock, elems)
    ensures items != [] && items[0].key == key && len == |elems| + 1
    ensures items[0].value == List(if left then [e] + elems else elems + [e])
  {
    var found := LookupRc(Kept(old_, 1, clock(0)), key, clock(1));
    var room := PushRoom(sp, old_, found, key, e, clock(0), head, cap);
    hide Kept, LookedUp, LookupRc, PushRoom, HeadTaken, HasList;
  }

  /** A pop of a live list: an element leaves at the side asked for, and only that; the entry goes
      with its last one. */
  lemma {:induction false} PopList(old_: seq<Item>, items: seq<Item>, key: seq<byte>, left: bool, clock: nat -> uint64,
                                   rc: Rc, value: Option<Elem>, a: seq<Item>, it: Item, b: seq<Item>, x: Elem,
                                   rest: seq<Elem>)
    requires PopResult(old_, items, key, left, clock, rc, value) && Around(old_, clock(0), key, a, it, b)
    requires Live(it, clock(1)) && it.value == List(if left then [x] + rest else rest + [x])
    ensures rc == OK && value == Some(x)
    ensures items == (if rest == [] then [] else [it.(value := List(rest))]) + (a + b)
  {
    AroundSeen(old_, clock(0), clock(1), key, a, it, b);
    hide Kept, LookedUp, LookupRc, Live, Around;
    PopEnds(x, rest, left);
    assert rest == [] ==> [] + (a + b) == a + b;
    hide Dropped, PopIndex;
  }

  lemma {:induction false} PopEnds(x: Elem, rest: seq<Elem>, left: bool)
    ensures
      var all := if left then [x] + rest else rest + [x];
      all[PopIndex(all, left)] == x && Dropped(all, PopIndex(all, left)) == rest && |all| == |rest| + 1
  {
  }

  /** A pop of anything else changes nothing but the order. */
  lemma {:induction false} PopOther(old_: seq<Item>, items: seq<Item>, key: seq<byte>, left: bool, clock: nat -> uint64,
                                    rc: Rc, value: Option<Elem>, a: seq<Item>, it: Item, b: seq<Item>)
    requires PopResult(old_, items, key, left, clock, rc, value)
    ensures Absent(old_, clock(0), key) ==> rc == OK && value == None && items == Kept(old_, 1, clock(0))
    ensures Around(old_, clock(0), key, a, it, b) && !Live(it, clock(1)) ==>
      rc == OK && value == None && items == [it] + (a + b)
    ensures Around(old_, clock(0), key, a, it, b) && Live(it, clock(1)) && it.value.Scalar? ==>
      rc == ERROR && value == None && items == [it] + (a + b)
  {
    if Absent(old_, clock(0), key) { AbsentSeen(old_, clock(0), clock(1), key); }
    if Around(old_, clock(0), key, a, it, b) { AroundSeen(old_, clock(0), clock(1), key, a, it, b); }
    hide Kept, LookedUp, LookupRc, Live, Around, Absent;
  }

  /** A push and then a pop on the same side, before the list is over: what was pushed comes back
      and the list is as it was, without an entry if there was none. */
  lemma {:induction false} PushPop(sp: Space, old_: seq<Item>, items: seq<Item>, key: seq<byte>, left: bool, e: Elem,
                                   clock: nat -> uint64, head: Off, cap: nat, rc: Rc, len: nat, elems: seq<Elem>,
                                   items2: seq<Item>, clock2: nat -> uint64, rc2: Rc, value: Option<Elem>)
    requires PushResult(sp, old_, items, key, left, e, clock, head, cap, rc, len) && rc == OK
    requires Found(old_, key, clock, elems)
    requires PopResult(items, items2, key, left, clock2, rc2, value)
    requires items != [] && !Over(items[0], clock2(0)) && Live(items[0], clock2(1))
    ensures rc2 == OK && value == Some(e)
    ensures Kept(items, 1, clock2(0)) != [] && items2 ==
      (if elems == [] then [] else [items[0].(value := List(elems))]) + Kept(items, 1, clock2(0))[1..]
  {
    hide Over, Live, Kept, PopResult, PushResult, Around, Found;
    PushedList(sp, old_, items, key, left, e, clock, head, cap, rc, len, elems);
    var b := FrontAround(items, clock2(0), clock2(1));
    PopFront(items, items2, key, left, clock2, rc2, value, b, e, elems);
  }

  /** The list in front loses an element. */
  lemma {:induction false} PopFront(items: seq<Item>, items2: seq<Item>, key: seq<byte>, left: bool,
                                    clock2: nat -> uint64, rc2: Rc, value: Option<Elem>, b: seq<Item>, x: Elem,
                                    rest: seq<Elem>)
    requires items != [] && Around(items, clock2(0), key, [], items[0], b) && Live(items[0], clock2(1))
    requires items[0].value == List(if left then [x] + rest else rest + [x])
    requires PopResult(items, items2, key, left, clock2, rc2, value)
    ensures rc2 == OK && value == Some(x) && Kept(items, 1, clock2(0)) != []
    ensures items2 == (if rest == [] then [] else [items[0].(value := List(rest))]) + Kept(items, 1, clock2(0))[1..]
  {
    PopList(items, items2, key, left, clock2, rc2, value, [], items[0], b, x, rest);
    hide Kept, PopResult, Live;
    assert [] + [items[0]] + b == [items[0]] + b && ([items[0]] + b)[1..] == b && [] + b == b;
  }

  /** A push and then a pop on the other side: the oldest element comes out, and the new one stays
      behind the rest. The element itself is the oldest if there was no list. */
  lemma {:induction false} PushPopOther(sp: Space, old_: seq<Item>, items: seq<Item>, key: seq<byte>, left: bool,
                                        e: Elem, clock: nat -> uint64, head: Off, cap: nat, rc: Rc, len: nat, x: Elem,
                                        rest: seq<Elem>, items2: seq<Item>, clock2: nat -> uint64, rc2: Rc,
                                        value: Option<Elem>)
    requires PushResult(sp, old_, items, key, left, e, clock, head, cap, rc, len) && rc == OK
    requires Found(old_, key, clock, []) || Found(old_, key, clock, if left then rest + [x] else [x] + rest)
    requires PopResult(items, items2, key, !left, clock2, rc2, value)
    requires items != [] && !Over(items[0], clock2(0)) && Live(items[0], clock2(1))
    ensures Kept(items, 1, clock2(0)) != [] && rc2 == OK
    ensures Found(old_, key, clock, []) ==> value == Some(e) && items2 == Kept(items, 1, clock2(0))[1..]
    ensures !Found(old_, key, clock, []) ==>
      value == Some(x) &&
      items2 == [items[0].(value := List(if left then [e] + rest else rest + [e]))] + Kept(items, 1, clock2(0))[1..]
  {
    hide Over, Live, Kept, PopResult, PushResult, Around, Found;
    var b := FrontAround(items, clock2(0), clock2(1));
    if Found(old_, key, clock, []) {
      PushedList(sp, old_, items, key, left, e, clock, head, cap, rc, len, []);
      PopFront(items, items2, key, !left, clock2, rc2, value, b, e, []);
    } else {
      PushedList(sp, old_, items, key, left, e, clock, head, cap, rc, len, if left then rest + [x] else [x] + rest);
      assert [e] + (rest + [x]) == ([e] + rest) + [x] && ([x] + rest) + [e] == [x] + (rest + [e]);
      PopFront(items, items2, key, !left, clock2, rc2, value, b, x, if left then [e] + rest else rest + [e]);
    }
  }

  /** Llen after a push returns the length that the push returned, and 0 where there is no list. */
  lemma {:induction false} LlenFound(old_: seq<Item>, items: seq<Item>, key: seq<byte>, clock: nat -> uint64, rc: Rc,
                                     len: nat, a: seq<Item>, it: Item, b: seq<Item>)
    requires LlenResult(old_, items, key, clock, rc, len)
    ensures Absent(old_, clock(0), key) ==> rc == OK && len == 0 && items == Kept(old_, 1, clock(0))
    ensures Around(old_, clock(0), key, a, it, b) ==>
      items == [it] + (a + b) &&
      if !Live(it, clock(1)) then rc == OK && len == 0
      else match it.value
        case List(elems) => rc == OK && len == |elems|
        case Scalar(_, _) => rc == ERROR
  {
    if Absent(old_, clock(0), key) { AbsentSeen(old_, clock(0), clock(1), key); }
    if Around(old_, clock(0), key, a, it, b) { AroundSeen(old_, clock(0), clock(1), key, a, it, b); }
    hide Kept, LookedUp, LookupRc, Live, Around, Absent;
  }

  // ---------- memory ----------

  lemma {:induction false} RestAll(sp: Space)
    requires SpaceOk(sp)
    ensures Rest(sp, sp.addrs) == sp.live && sp.addrs[..|sp.addrs|] == sp.addrs
  {
    FewerSame(sp.live);
    hide Sep, Footprint, Rest, Fewer;
    RestIs(sp, sp.live, sp.addrs);
  }

  /** Bytes of an entry with a list: the record, the key and the queue head, up to a multiple of 8. */
  function ListEntry(key: seq<byte>): nat {
    (68 + |key| + 16 + 7) / 8 * 8
  }

  lemma {:induction false} ListEntryIs(key: seq<byte>)
    ensures ListBytes(key) == ListEntry(key)
  {
    var n := 68 + |key| + 16;
    var r := ListBytes(key);
    assert n <= r < n + 8 && r % 8 == 0;
    assert r == r / 8 * 8;
  }

  /** A new key, when nothing has expired: a safe store succeeds exactly if there is room for the
      record with key and value; any other store succeeds then without removing anything, and
      otherwise removes something if there is anything. */
  lemma {:induction false} StoreFits(sp: Space, old_: seq<Item>, items: seq<Item>, op: StoreOp, key: seq<byte>,
                                     kind: nat, buf: Option<seq<byte>>, exptime: int, flags: int,
                                     clock: nat -> uint64, rc: Rc, forcible: bool, dropped: nat)
    requires StoreResult(sp, old_, items, op, key, kind, buf, exptime, flags, clock, rc, forcible, dropped)
    requires SpaceOk(sp) && Kept(old_, 1, clock(0)) == old_ && NoKey(old_, key) && !op.replace && buf.Some?
    ensures
      var room := SlabRoom.RoomIn(sp.g, sp.live, 68 + |key| + |buf.value|);
      (room ==> rc == OK && !forcible) &&
      (!room ==> if op.safe then rc == ERROR && !forcible else forcible <==> old_ != [])
  {
    var n := EntryBytes(key, |buf.value|);
    var it := Item(key, Scalar(kind, buf.value), flags, ExpiresAt(exptime, clock(2)));
    LookupNone(old_, key, clock(1));
    RestAll(sp);
    assert Others(sp.addrs, old_, key, clock(0)) == sp.addrs;
    hide Kept, Find, LookupRc, LookedUp, NoKey, SpaceOk, Rest, SlabRoom.RoomIn, Others, ExpiresAt;
    NewFits(sp, old_, items, it, n, op.safe, clock, rc, forcible, dropped);
  }

  lemma {:induction false} NewFits(sp: Space, rest: seq<Item>, items: seq<Item>, it: Item, n: nat, safe: bool,
                                   clock: nat -> uint64, rc: Rc, forcible: bool, dropped: nat)
    requires NewResult(sp, sp.addrs, rest, items, it, n, safe, clock, rc, forcible, dropped)
    ensures RoomWith(sp, sp.addrs, n) ==> rc == OK && !forcible
    ensures !RoomWith(sp, sp.addrs, n) ==> if safe then rc == ERROR && !forcible else forcible <==> rest != []
  {
    hide RoomWith, ForcedCount;
    assert sp.addrs[..|rest|] == sp.addrs;
    ForcedUnfold(sp, sp.addrs, rest, n, Later(clock), 0);
    ExpireSuffix(rest, 0, Later(clock)(0));
  }

  /** When nothing has expired a push to a live list succeeds exactly if there is room for the element;
      one to a new key exactly if there is room for an entry with a list, and then for the element. */
  lemma {:induction false} PushFits(sp: Space, old_: seq<Item>, items: seq<Item>, key: seq<byte>, left: bool, e: Elem,
                                    clock: nat -> uint64, head: Off, cap: nat, rc: Rc, len: nat, a: seq<Item>, it: Item,
                                    b: seq<Item>)
    requires PushResult(sp, old_, items, key, left, e, clock, head, cap, rc, len)
    requires SpaceOk(sp) && Kept(old_, 1, clock(0)) == old_
    ensures Around(old_, clock(0), key, a, it, b) && Live(it, clock(1)) && it.value.List? ==>
      (rc == OK <==> SlabRoom.RoomIn(sp.g, sp.live, 21 + |e.data|))
    ensures NoKey(old_, key) ==>
      var n := ListEntry(key);
      (SlabRoom.RoomIn(sp.g, sp.live, n) ==> SlabRoom.Granted(sp.g, sp.live, n, head, cap)) &&
      (rc == OK <==>
        SlabRoom.RoomIn(sp.g, sp.live, n) && SlabRoom.RoomIn(sp.g, sp.live[head := cap], 21 + |e.data|))
  {
    RestAll(sp);
    ListEntryIs(key);
    PushMemory(sp, old_, items, key, left, e, clock, head, cap, rc, len);
    if NoKey(old_, key) {
      LookupNone(old_, key, clock(1));
      assert Others(sp.addrs, old_, key, clock(0)) == sp.addrs;
    }
    if Around(old_, clock(0), key, a, it, b) {
      AroundSeen(old_, clock(0), clock(1), key, a, it, b);
      FindAt(a, it, b);
      assert (a + [it] + b)[|a|] == it;
    }
    hide Kept, Find, LookupRc, LookedUp, NoKey, SpaceOk, Rest, SlabRoom.RoomIn, SlabRoom.Granted, Others, Live;
  }
}
