/** What callers see of the clock: how long an item lives, when a lookup finds it and when it is
    removed. Everything is said in plain arithmetic on the expiry of the item and the clock. */
module DictTime {
  import opened RbShape
  import opened NgxString
  import opened Seqs
  import opened DictState
  import opened RbOrder
  import opened DictRoom
  import opened DictSpec

  /** No item has the key. */
  ghost predicate NoKey(items: seq<Item>, key: seq<byte>) {
    forall it {:trigger it in items} :: it in items ==> it.key != key
  }

  /** The first item with the key is `it`: how the laws speak of the item that a lookup finds. */
  lemma {:induction false} FindAt(a: seq<Item>, it: Item, b: seq<Item>)
    requires NoKey(a, it.key)
    ensures Find(a + [it] + b, it.key) == |a| && LookedUp(a + [it] + b, it.key) == [it] + a + b
  {
    var items := a + [it] + b;
    assert items[|a|] == it;
    forall i | 0 <= i < |a| ensures items[i].key != it.key { assert items[i] in a; }
  }

  /** A key without an item is not found; nothing moves. */
  lemma {:induction false} LookupNone(items: seq<Item>, key: seq<byte>, now: uint64)
    requires NoKey(items, key)
    ensures LookupRc(items, key, now) == DECLINED && LookedUp(items, key) == items && Find(items, key) == |items|
  {
    forall i | 0 <= i < |items| ensures items[i].key != key { assert items[i] in items; }
    FindNone(items, key);
  }

  /** A lookup returns the item as live if and only if it has no expiry, or its expiry is at the
      clock or ahead of it by less than half its range; otherwise as expired. It comes first and
      the others keep their order. */
  lemma {:induction false} LookupLive(a: seq<Item>, it: Item, b: seq<Item>, now: uint64)
    requires NoKey(a, it.key)
    ensures
      LookupRc(a + [it] + b, it.key, now) == if it.expires == 0 || (it.expires - now) % WORD < HALF then OK else DONE
    ensures LookedUp(a + [it] + b, it.key) == [it] + a + b
  {
    FindAt(a, it, b);
    hide Find, LookedUp;
  }

  /** An expiry `t` milliseconds ahead of the clock, modulo the range of the clock. */
  lemma {:induction false} LookupAhead(a: seq<Item>, it: Item, b: seq<Item>, now: uint64, t: nat)
    requires NoKey(a, it.key) && it.expires != 0 && t < WORD && it.expires == (now + t) % WORD
    ensures LookupRc(a + [it] + b, it.key, now) == if t < HALF then OK else DONE
  {
    assert (it.expires - now) % WORD == t;
    LookupLive(a, it, b, now);
    hide LookupRc;
  }

  /** A get returns value and flags of an item that is live, and on request those of one that has
      expired, marked as stale. */
  lemma {:induction false} GetLive(a: seq<Item>, it: Item, b: seq<Item>, items: seq<Item>, now: uint64, getStale: bool,
                                   rc: Rc, value: Option<(nat, seq<byte>)>, flags: int, stale: bool)
    requires NoKey(a, it.key) && GetResult(a + [it] + b, items, it.key, now, getStale, rc, value, flags, stale)
    ensures
      var live := it.expires == 0 || (it.expires - now) % WORD < HALF;
      if !live && !getStale then rc == OK && value == None
      else match it.value
        case List(_) => rc == ERROR && value == None
        case Scalar(kind, data) => rc == OK && value == Some((kind, data)) && flags == it.flags && stale == !live
    ensures items == [it] + a + b
  {
    LookupLive(a, it, b, now);
    hide LookupRc, LookedUp;
  }

  lemma {:induction false} GetNone(old_: seq<Item>, items: seq<Item>, key: seq<byte>, now: uint64, getStale: bool,
                                   rc: Rc, value: Option<(nat, seq<byte>)>, flags: int, stale: bool)
    requires NoKey(old_, key) && GetResult(old_, items, key, now, getStale, rc, value, flags, stale)
    ensures rc == OK && value == None && items == old_
  {
    LookupNone(old_, key, now);
    hide LookupRc, LookedUp;
  }

  /** What get_ttl returns: 0 without an expiry, else how far the expiry is ahead of the clock, as
      a negative number if it is behind. */
  lemma {:induction false} TtlAmount(a: seq<Item>, it: Item, b: seq<Item>, now: uint64, t: int, ttl: Option<int>)
    requires NoKey(a, it.key) && TtlResult(a + [it] + b, it.key, now, ttl)
    ensures it.expires == 0 ==> ttl == Some(0)
    ensures it.expires != 0 && -HALF <= t < HALF && it.expires == (now + t) % WORD ==> ttl == Some(t)
  {
    FindAt(a, it, b);
    hide Find, LookedUp;
    assert it.expires == (now + t) % WORD ==> (it.expires - now + HALF) % WORD == (t + HALF) % WORD;
  }

  lemma {:induction false} TtlNone(items: seq<Item>, key: seq<byte>, now: uint64, ttl: Option<int>)
    requires NoKey(items, key) && TtlResult(items, key, now, ttl)
    ensures ttl == None
  {
    LookupNone(items, key, now);
  }

  // ---------- time to live ----------

  /** The item of the key is found live exactly if it has time left, and get_ttl returns how much. */
  ghost predicate Left(items: seq<Item>, key: seq<byte>, now: uint64, left: int) {
    (LookupRc(items, key, now) == OK <==> 0 <= left) &&
    forall ttl :: TtlResult(items, key, now, ttl) <==> ttl == Some(left)
  }

  /** It is so `d` milliseconds after the clock showed `c`, for a time to live of `exptime`. */
  ghost predicate LivesAt(items: seq<Item>, key: seq<byte>, c: uint64, exptime: int, d: nat) {
    Left(items, key, (c + d) % WORD, exptime - d)
  }

  /** It is so for as long as the clock can tell past from future. */
  ghost predicate Lives(items: seq<Item>, key: seq<byte>, c: uint64, exptime: int) {
    forall d: nat {:trigger LivesAt(items, key, c, exptime, d)} :: d < HALF ==> LivesAt(items, key, c, exptime, d)
  }

  /** It is found live at any time, and get_ttl returns 0. */
  ghost predicate Unlimited(items: seq<Item>, key: seq<byte>) {
    (forall now: uint64 :: LookupRc(items, key, now) == OK) &&
    forall now: uint64, ttl :: TtlResult(items, key, now, ttl) <==> ttl == Some(0)
  }

  /** What the time to live given to an operation at the clock reading `c` means for the item: no
      limit if it is 0 or less, and also if the expiry happens to be 0; otherwise that time. */
  ghost predicate TimeGiven(items: seq<Item>, key: seq<byte>, c: uint64, exptime: int) {
    (exptime <= 0 ==> Unlimited(items, key)) &&
    (0 < exptime < HALF ==> (Lives(items, key, c, exptime) <==> (c + exptime) % WORD != 0)) &&
    (0 < exptime < HALF && (c + exptime) % WORD == 0 ==> Unlimited(items, key))
  }

  /** How far apart two readings of the clock are. */
  lemma {:induction false} ClockAhead(c: int, x: int, d: int, shift: int)
    ensures ((c + x) % WORD - (c + d) % WORD + shift) % WORD == (x - d + shift) % WORD
  {
    var p, q := (c + x) / WORD, (c + d) / WORD;
    var r := (c + x) % WORD - (c + d) % WORD + shift;
    assert x - d + shift == r + (p - q) * WORD;
    ModShift(r, p - q);
  }

  lemma {:induction false} ModShift(r: int, k: int)
    ensures (r + k * WORD) % WORD == r % WORD
  {
    var q := r / WORD;
    assert r + k * WORD == (q + k) * WORD + r % WORD;
  }

  lemma {:induction false} LivesStep(a: seq<Item>, it: Item, b: seq<Item>, c: uint64, exptime: int, d: nat)
    requires NoKey(a, it.key) && 0 < exptime < HALF && it.expires == (c + exptime) % WORD && it.expires != 0 && d < HALF
    ensures LivesAt(a + [it] + b, it.key, c, exptime, d)
  {
    var now := (c + d) % WORD;
    LookupLive(a, it, b, now);
    FindAt(a, it, b);
    hide LookupRc, LookedUp, Find;
    ClockAhead(c, exptime, d, 0);
    ClockAhead(c, exptime, d, HALF);
    assert Ms(it.expires, now) == exptime - d;
  }

  lemma {:induction false} NoExpiry(a: seq<Item>, it: Item, b: seq<Item>)
    requires NoKey(a, it.key) && it.expires == 0
    ensures Unlimited(a + [it] + b, it.key)
  {
    var items := a + [it] + b;
    FindAt(a, it, b);
    forall now: uint64 ensures LookupRc(items, it.key, now) == OK { LookupLive(a, it, b, now); }
  }

  /** An item written with a time to live. */
  lemma {:induction false} TimeOf(a: seq<Item>, it: Item, b: seq<Item>, c: uint64, exptime: int)
    requires NoKey(a, it.key) && it.expires == ExpiresAt(exptime, c)
    ensures TimeGiven(a + [it] + b, it.key, c, exptime)
  {
    var items := a + [it] + b;
    hide LookupRc, TtlResult;
    if it.expires == 0 {
      NoExpiry(a, it, b);
      if 0 < exptime < HALF {
        assert !Left(items, it.key, (c + 0) % WORD, exptime) by { assert TtlResult(items, it.key, c, Some(0)); }
        assert !LivesAt(items, it.key, c, exptime, 0);
      }
    } else if 0 < exptime < HALF {
      forall d: nat | d < HALF ensures LivesAt(items, it.key, c, exptime, d) { LivesStep(a, it, b, c, exptime, d); }
    }
  }

  /** Set_expire changes the expiry of the item, and nothing else. */
  lemma {:induction false} SetExpireLives(a: seq<Item>, it: Item, b: seq<Item>, items: seq<Item>, exptime: int,
                                          now: uint64, rc: Rc)
    requires NoKey(a, it.key) && SetExpireResult(a + [it] + b, items, it.key, exptime, now, rc)
    ensures rc == OK && TimeGiven(items, it.key, now, exptime)
    ensures exists e: uint64 :: items == a + [it.(expires := e)] + b
  {
    FindAt(a, it, b);
    hide Find, LookedUp, TimeGiven, ExpiresAt;
    var e := ExpiresAt(exptime, now);
    assert items == a + [it.(expires := e)] + b;
    TimeOf(a, it.(expires := e), b, now, exptime);
  }

  lemma {:induction false} SetExpireNone(old_: seq<Item>, items: seq<Item>, key: seq<byte>, exptime: int, now: uint64,
                                         rc: Rc)
    requires NoKey(old_, key) && SetExpireResult(old_, items, key, exptime, now, rc)
    ensures rc == DECLINED && items == old_
  {
    LookupNone(old_, key, now);
  }

  /** A time to live can be lost: one millisecond is given when the clock is about to start again
      from 0, and the item is found live at any time. */
  lemma {:induction false} TimeLost()
    ensures
      var it := Item([1], Scalar(TSTRING, [2]), 0, 0);
      SetExpireResult([it], [it], [1], 1, WORD - 1, OK) && Unlimited([it], [1]) && !Lives([it], [1], WORD - 1, 1)
  {
    var it := Item([1], Scalar(TSTRING, [2]), 0, 0);
    assert [it] == [] + [it] + [];
    FindAt([], it, []);
    TimeOf([], it, [], WORD - 1, 1);
    hide Lives, Unlimited;
  }

  // ---------- expiry ----------

  /** The clock is at the expiry or past it. */
  ghost predicate Over(it: Item, now: uint64) {
    it.expires != 0 && ((it.expires - now) % WORD == 0 || HALF <= (it.expires - now) % WORD)
  }

  lemma {:induction false} OverDue(it: Item, now: uint64)
    ensures Over(it, now) <==> Due(it.expires, now)
  {
  }

  /** Expiry removes the last items that are over, two at most; of an item that is not, and of all
      before it, nothing. */
  lemma {:induction false} ExpireTwo(a: seq<Item>, x: Item, y: Item, now: uint64)
    ensures Kept(a + [x, y], 1, now) ==
      a + if !Over(y, now) then [x, y] else if !Over(x, now) then [x] else []
    ensures Kept([y], 1, now) == (if Over(y, now) then [] else [y]) && Kept([], 1, now) == []
  {
    OverDue(x, now);
    OverDue(y, now);
    hide Over, Due, Kept;
    KeptLast(a + [x], y, 1, now);
    KeptLast(a, x, 2, now);
    KeptLast([], y, 1, now);
    KeptAll(a, 3, now);
    KeptAll([], 2, now);
    assert a + [x, y] == (a + [x]) + [y];
    assert [] + [y] == [y];
    assert a + [] == a;
  }

  /** Expiry by force removes the last item, and of the two before it those that are over. */
  lemma {:induction false} ExpireThree(a: seq<Item>, x: Item, y: Item, z: Item, now: uint64)
    ensures Kept(a + [x, y, z], 0, now) ==
      a + if !Over(y, now) then [x, y] else if !Over(x, now) then [x] else []
    ensures Kept([y, z], 0, now) == (if Over(y, now) then [] else [y]) && Kept([z], 0, now) == [] == Kept([], 0, now)
  {
    hide Over, Due, Kept;
    ExpireTwo(a, x, y, now);
    KeptLast(a + [x, y], z, 0, now);
    KeptLast([y], z, 0, now);
    KeptLast([], z, 0, now);
    assert a + [x, y, z] == (a + [x, y]) + [z];
    assert [y, z] == [y] + [z];
    assert [z] == [] + [z];
  }

  lemma {:induction false} KeptLast(a: seq<Item>, x: Item, n: nat, now: uint64)
    requires n < 3
    ensures Kept(a + [x], n, now) == if n == 0 || Due(x.expires, now) then Kept(a, n + 1, now) else a + [x]
    ensures Kept([], n, now) == []
  {
    var s := a + [x];
    ExpireStep(s, n, now);
    assert s[..|s| - 1] == a && s[|s| - 1] == x;
    hide ExpireCount, Due;
    if n == 0 || Due(x.expires, now) {
      assert s[..|a| - ExpireCount(a, n + 1, now)] == a[..|a| - ExpireCount(a, n + 1, now)];
    } else {
      assert s[..|s|] == s;
    }
  }

  lemma {:induction false} KeptAll(a: seq<Item>, n: nat, now: uint64)
    requires n >= 3 || a == []
    ensures Kept(a, n, now) == a
  {
    ExpireStep(a, n, now);
    assert a[..|a|] == a;
  }

  /** Flush_all leaves all but the last three items, in their order and with their values, marked. */
  lemma {:induction false} FlushLeaves(items: seq<Item>, now: uint64)
    requires 1 <= now < HALF
    ensures Kept(Flushed(items), 0, now) == Flushed(items)[..if |items| <= 3 then 0 else |items| - 3]
  {
    FlushedAllGo(Flushed(items), 0, now);
  }

  lemma {:induction false} FlushedAllGo(s: seq<Item>, n: nat, now: uint64)
    requires 1 <= now < HALF && n <= 3 && forall i {:trigger s[i]} :: 0 <= i < |s| ==> s[i].expires == 1
    ensures Kept(s, n, now) == s[..if |s| <= 3 - n then 0 else |s| - (3 - n)]
    decreases 3 - n
  {
    if s == [] || n == 3 {
      KeptAll(s, n, now);
    } else {
      var r, x := s[..|s| - 1], s[|s| - 1];
      assert s == r + [x];
      assert Due(1, now) by { assert (1 - now + HALF) % WORD == 1 - now + HALF; }
      KeptLast(r, x, n, now);
      hide Kept, Due;
      FlushedAllGo(r, n + 1, now);
    }
  }
}
