/** The three comparators, and what they make of the in-order sequence. */
module RbOrder {
  import opened RbShape
  import opened NgxString

  datatype InsertType = Standard | Timer | Luadict

  /** What a node carries: its key and, in a dictionary, the key string behind the
      colour byte. */
  datatype Payload = Payload(key: uint64, name: seq<byte>)

  const WORD: int := 0x1_0000_0000_0000_0000
  const HALF: int := 0x8000_0000_0000_0000

  /** Does the comparator chosen at initialisation send `a` to the left of `b`? The
      timer comparator takes the difference as a signed word. */
  predicate GoesLeft(ty: InsertType, a: Payload, b: Payload) {
    match ty
    case Standard => a.key < b.key
    case Timer => (a.key - b.key) % WORD >= HALF
    case Luadict => a.key < b.key || (a.key == b.key && Memn2cmp(a.name, b.name) < 0)
  }

  /** `p` belongs at position `k` of `s`: it goes to the right of everything before and
      to the left of everything after. */
  ghost predicate Splits(ty: InsertType, d: map<Off, Payload>, s: seq<Off>, p: Payload, k: int) {
    0 <= k <= |s| && (forall i :: 0 <= i < |s| ==> s[i] in d && (GoesLeft(ty, p, d[s[i]]) <==> k <= i))
  }

  ghost function Inserted(s: seq<Off>, i: int, x: Off): seq<Off>
    requires 0 <= i <= |s|
  {
    s[..i] + [x] + s[i..]
  }

  // ---------- orders given by a number ----------

  /** The payloads along `s` have ascending ranks, equal ranks allowed. */
  ghost predicate Ranked(rank: Payload -> int, d: map<Off, Payload>, s: seq<Off>) {
    (forall i :: 0 <= i < |s| ==> s[i] in d) &&
    forall i, j :: 0 <= i < j < |s| ==> rank(d[s[i]]) <= rank(d[s[j]])
  }

  /** The comparator agrees with the rank when `p` is compared with the members of `s`. */
  ghost predicate Agrees(ty: InsertType, rank: Payload -> int, d: map<Off, Payload>, s: seq<Off>, p: Payload) {
    forall i :: 0 <= i < |s| ==> s[i] in d && (GoesLeft(ty, p, d[s[i]]) <==> rank(p) < rank(d[s[i]]))
  }

  lemma {:induction false} RankedSplits(ty: InsertType, rank: Payload -> int, d: map<Off, Payload>, s: seq<Off>,
                                        p: Payload)
    returns (k: nat)
    requires Ranked(rank, d, s) && Agrees(ty, rank, d, s, p)
    ensures Splits(ty, d, s, p, k)
  {
    if s == [] {
      k := 0;
    } else {
      var n := |s| - 1;
      k := RankedSplits(ty, rank, d, s[..n], p);
      assert forall i :: 0 <= i < n ==> s[..n][i] == s[i];
      if k == n {
        if rank(p) >= rank(d[s[n]]) { k := |s|; }
      } else {
        assert s[..n][k] == s[k] && GoesLeft(ty, p, d[s[k]]);
      }
    }
  }

  /** A comparator that agrees with a rank keeps the sequence ranked: the new node comes
      after everything of at most its rank and before everything else. */
  lemma {:induction false} RankedInsert(ty: InsertType, rank: Payload -> int, d: map<Off, Payload>, s: seq<Off>, x: Off,
                                        i: nat)
    requires x in d && Ranked(rank, d, s) && Agrees(ty, rank, d, s, d[x]) && i <= |s|
    requires forall k :: Splits(ty, d, s, d[x], k) ==> k == i
    ensures Ranked(rank, d, Inserted(s, i, x))
    ensures forall j :: 0 <= j < |s| ==> (j < i <==> rank(d[s[j]]) <= rank(d[x]))
  {
    var k := RankedSplits(ty, rank, d, s, d[x]);
    assert Splits(ty, d, s, d[x], i);
    var s' := Inserted(s, i, x);
    assert forall j :: 0 <= j < |s'| ==> s'[j] == if j < i then s[j] else if j == i then x else s[j - 1];
  }

  function KeyRank(p: Payload): int {
    p.key
  }

  lemma {:induction false} StandardAgrees(d: map<Off, Payload>, s: seq<Off>, p: Payload)
    requires forall i :: 0 <= i < |s| ==> s[i] in d
    ensures Agrees(Standard, KeyRank, d, s, p)
  {
  }

  /** The distance of a key from the start `w` of a window of timer values. */
  function Distance(w: uint64, key: uint64): int {
    (key - w) % WORD
  }

  /** In a window narrower than half the word the timer comparator compares distances,
      even when the window wraps around zero. */
  lemma {:induction false} TimerCompares(w: uint64, a: Payload, b: Payload)
    requires Distance(w, a.key) < HALF && Distance(w, b.key) < HALF
    ensures GoesLeft(Timer, a, b) <==> Distance(w, a.key) < Distance(w, b.key)
  {
    var da, db := Distance(w, a.key), Distance(w, b.key);
    var x := if a.key >= w then 0 else 1;
    var y := if b.key >= w then 0 else 1;
    assert da == a.key - w + x * WORD && db == b.key - w + y * WORD;
    assert a.key - b.key == da - db + (y - x) * WORD;
    assert (a.key - b.key) % WORD == (if da < db then da - db + WORD else da - db);
  }

  /** All keys lie in the window of less than half the word that starts at `w`. */
  ghost predicate InWindow(w: uint64, d: map<Off, Payload>, s: seq<Off>, p: Payload) {
    Distance(w, p.key) < HALF && forall i :: 0 <= i < |s| ==> s[i] in d && Distance(w, d[s[i]].key) < HALF
  }

  /** With the standard comparator an insertion keeps the keys ascending, and the new node
      comes after every element with a key of at most its own. */
  lemma {:induction false} StandardInsert(d: map<Off, Payload>, s: seq<Off>, x: Off, i: nat)
    requires x in d && Ranked(KeyRank, d, s) && i <= |s| && forall k :: Splits(Standard, d, s, d[x], k) ==> k == i
    ensures Ranked(KeyRank, d, Inserted(s, i, x)) && forall j :: 0 <= j < |s| ==> (j < i <==> d[s[j]].key <= d[x].key)
  {
    StandardAgrees(d, s, d[x]);
    RankedInsert(Standard, KeyRank, d, s, x, i);
    assert forall j :: 0 <= j < |s| ==> KeyRank(d[s[j]]) == d[s[j]].key;
  }

  /** With the timer comparator an insertion keeps the keys ascending by their distance from
      the start of the window. */
  lemma {:induction false} TimerInsert(w: uint64, d: map<Off, Payload>, s: seq<Off>, x: Off, i: nat)
    requires x in d && InWindow(w, d, s, d[x]) && i <= |s| && forall k :: Splits(Timer, d, s, d[x], k) ==> k == i
    requires Ranked((p: Payload) => Distance(w, p.key), d, s)
    ensures Ranked((p: Payload) => Distance(w, p.key), d, Inserted(s, i, x))
  {
    var rank := (p: Payload) => Distance(w, p.key);
    forall j | 0 <= j < |s| ensures s[j] in d && (GoesLeft(Timer, d[x], d[s[j]]) <==> rank(d[x]) < rank(d[s[j]])) {
      TimerCompares(w, d[x], d[s[j]]);
    }
    RankedInsert(Timer, rank, d, s, x, i);
    assert Ranked(rank, d, Inserted(s, i, x));
  }

  /** Three keys that no such window holds: the timer comparator orders them in a circle. */
  lemma {:induction false} TimerCircle()
    ensures
      var a, b, c := Payload(0, []), Payload(0x6000_0000_0000_0000, []), Payload(0xC000_0000_0000_0000, []);
      GoesLeft(Timer, a, b) && GoesLeft(Timer, b, c) && GoesLeft(Timer, c, a)
  {
  }

  /** The timer comparator is asymmetric and transitive on these keys. */
  ghost predicate TimerOrders(ps: seq<Payload>) {
    (forall a, b {:trigger GoesLeft(Timer, a, b)} ::
      a in ps && b in ps && GoesLeft(Timer, a, b) ==> !GoesLeft(Timer, b, a)) &&
    forall a, b, c {:trigger GoesLeft(Timer, a, b), GoesLeft(Timer, b, c)} ::
      a in ps && b in ps && c in ps && GoesLeft(Timer, a, b) && GoesLeft(Timer, b, c) ==> GoesLeft(Timer, a, c)
  }

  /** The keys lie in the window of less than half the word that starts at `w`. */
  ghost predicate HoldsAll(w: uint64, ps: seq<Payload>) {
    forall p {:trigger p in ps} :: p in ps ==> Distance(w, p.key) < HALF
  }

  /** Where the comparator is an order some key comes before the others. */
  lemma {:induction false} Earliest(ps: seq<Payload>) returns (m: Payload)
    requires TimerOrders(ps) && ps != []
    ensures m in ps && forall b {:trigger b in ps} :: b in ps ==> !GoesLeft(Timer, b, m)
  {
    hide GoesLeft;
    m := ps[0];
    assert GoesLeft(Timer, m, m) ==> !GoesLeft(Timer, m, m);
    if |ps| > 1 {
      var rest := Earliest(ps[1..]);
      if !GoesLeft(Timer, m, rest) { m := rest; }
      forall b | b in ps ensures !GoesLeft(Timer, b, m) {
        assert b == ps[0] || b in ps[1..];
        assert GoesLeft(Timer, b, ps[0]) && GoesLeft(Timer, ps[0], rest) ==> GoesLeft(Timer, b, rest);
      }
    }
  }

  /** The timer comparator is a strict order on some keys if and only if one window of less
      than half the word holds them all. */
  lemma {:induction false} TimerOrderIff(ps: seq<Payload>)
    requires ps != []
    ensures TimerOrders(ps) <==> exists w: uint64 :: HoldsAll(w, ps)
  {
    if TimerOrders(ps) {
      var m := Earliest(ps);
      forall p | p in ps ensures Distance(m.key, p.key) < HALF { assert !GoesLeft(Timer, p, m); }
      assert HoldsAll(m.key, ps);
    }
    forall w: uint64 | HoldsAll(w, ps) ensures TimerOrders(ps) {
      forall a, b | a in ps && b in ps ensures GoesLeft(Timer, a, b) <==> Distance(w, a.key) < Distance(w, b.key) {
        TimerCompares(w, a, b);
      }
    }
  }

  // ---------- the dictionary order ----------

  /** Order by hash and then by key string is a strict total order. */
  lemma {:induction false} LuadictOrder(a: Payload, b: Payload, c: Payload)
    ensures !GoesLeft(Luadict, a, a)
    ensures GoesLeft(Luadict, a, b) ==> !GoesLeft(Luadict, b, a)
    ensures GoesLeft(Luadict, a, b) && GoesLeft(Luadict, b, c) ==> GoesLeft(Luadict, a, c)
    ensures a == b || GoesLeft(Luadict, a, b) || GoesLeft(Luadict, b, a)
  {
    Memn2cmpTotalOrder(a.name, a.name, a.name);
    Memn2cmpTotalOrder(a.name, b.name, c.name);
    Memn2cmpTotalOrder(b.name, a.name, c.name);
  }

  /** Strictly ascending in the dictionary order, so no two nodes carry the same key. */
  ghost predicate Ascending(d: map<Off, Payload>, s: seq<Off>) {
    (forall i :: 0 <= i < |s| ==> s[i] in d) &&
    forall i, j :: 0 <= i < j < |s| ==> GoesLeft(Luadict, d[s[i]], d[s[j]])
  }

  lemma {:induction false} AscendingSplits(d: map<Off, Payload>, s: seq<Off>, p: Payload) returns (k: nat)
    requires Ascending(d, s)
    ensures Splits(Luadict, d, s, p, k)
  {
    if s == [] {
      k := 0;
    } else {
      var n := |s| - 1;
      k := AscendingSplits(d, s[..n], p);
      assert forall i :: 0 <= i < n ==> s[..n][i] == s[i];
      if k == n {
        if !GoesLeft(Luadict, p, d[s[n]]) { k := |s|; }
      } else {
        assert s[..n][k] == s[k];
        LuadictOrder(p, d[s[k]], d[s[n]]);
      }
    }
  }

  /** Inserting a key that is not there yet keeps the sequence ascending. */
  lemma {:induction false} AscendingInsert(d: map<Off, Payload>, s: seq<Off>, x: Off, i: nat)
    requires x in d && Ascending(d, s) && i <= |s|
    requires forall k :: Splits(Luadict, d, s, d[x], k) ==> k == i
    requires forall j :: 0 <= j < |s| ==> d[s[j]] != d[x]
    ensures Ascending(d, Inserted(s, i, x))
  {
    var k := AscendingSplits(d, s, d[x]);
    var s' := Inserted(s, i, x);
    assert Splits(Luadict, d, s, d[x], i);
    assert forall j :: 0 <= j < |s'| ==> s'[j] == if j < i then s[j] else if j == i then x else s[j - 1];
    forall a, b | 0 <= a < b < |s'| ensures GoesLeft(Luadict, d[s'[a]], d[s'[b]]) {
      LuadictOrder(d[s'[a]], d[s'[b]], d[s'[b]]);
    }
  }
}
