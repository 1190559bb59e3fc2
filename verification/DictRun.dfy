/** A run from a new pool to a value lost. */
module DictRun {
  import opened NgxString
  import opened Powers
  import opened RbShape
  import opened Seqs
  import opened DictState
  import opened DictRoom
  import opened DictSpec
  import opened DictLaws
  import opened SlabLayout
  import opened SlabRoom
  import D = Dict
  import Slab
  import SlabChunks

  /** 8192 bytes with pages of 4096 are laid out in one way. */
  lemma {:induction false} OneLayout(g: Geometry)
    requires GeometryOk(g) && g.ps == 12 && g.minShift == 3 && g.lo < g.hi
    requires g.start + (g.hi - g.lo) * PageSize(g) <= 8192
    ensures g == Small().g
  {
    Sizes();
    MulMono(1, g.hi - g.lo, PageSize(g));
  }

  lemma {:induction false} LayoutFits()
    ensures SlabLayout.Fits(12, 3, 8192)
  {
    Sizes();
    DivUnique(7544, 4120, 1, 3424);
    assert InitPages(12, 3, 8192) == 1;
    DivUnique(672, 4096, 0, 672);
    assert AlignUp(672, 4096) == 4096;
  }

  /** The first request, for the header, finds the page clear. */
  lemma {:induction false} RoomAtFirst()
    ensures RoomIn(Small().g, map[], TREE_BYTES)
  {
    Sizes();
    assert GeometryOk(Small().g);
    ClearIsRoom(Small().g, map[], TREE_BYTES, 11);
  }

  /** The header gets a chunk of 128 bytes. */
  lemma {:induction false} HeaderChunk(h: Off, c: nat)
    requires Granted(Small().g, map[], TREE_BYTES, h, c)
    ensures c == 128 && 4096 <= h && h + c <= 8192
  {
    var g := Small().g;
    Sizes();
    assert GeometryOk(g) && IsClass(g, TREE_BYTES, 7);
    hide Pow2, GivenChunk, Grants;
    assert h + c <= g.start + (g.hi - g.lo) * PageSize(g);
    GrantedChunk(g, map[], TREE_BYTES, h, c, 7);
  }

  /** Then there is another chunk for a small entry. */
  lemma {:induction false} RoomBeside(h: Off)
    ensures RoomIn(Small().g, map[h := 128], EntryBytes([1], 1))
  {
    var g, live := Small().g, map[h := 128];
    Sizes();
    assert IsClass(g, EntryBytes([1], 1), 7);
    assert SlabChunks.InRange(g, 7, 0) && SlabChunks.InRange(g, 7, 1);
    hide Pow2, IsClass, Touches, SlabChunks.InRange;
    assert ChunkAddr(g, 11, 7, 0) == 4096 && ChunkAddr(g, 11, 7, 1) == 4224;
    if h == 4096 {
      assert ChunkAddr(g, 11, 7, 1) !in live;
    } else {
      assert ChunkAddr(g, 11, 7, 0) !in live;
    }
    assert Offers(g, live, 7, 11);
  }

  /** The only entry is gone: what is left is the header. */
  lemma {:induction false} HeaderLeft(sp: Space, h: Off)
    requires sp.h == h && h in sp.live && sp.live[h] == 128 && sp.g == Small().g && 4096 <= h && h + 128 <= 8192
    ensures !RoomWith(sp, [], EntryBytes([1], 200))
  {
    WideFull(Rest(sp, []), h);
  }

  function Zero(n: nat): uint64 {
    0
  }

  function Item0(): Item {
    Item([1], Scalar(TSTRING, [2]), 0, 0)
  }

  /** A first set in an empty dictionary with room for it. */
  lemma {:induction false} FirstSet(sp: Space, items: seq<Item>, rc: Rc, forcible: bool, dropped: nat)
    requires StoreResult(sp, [], items, StoreOp(false, false, false), [1], TSTRING, Some([2]), 0, 0, Zero, rc, forcible,
                         dropped)
    requires RoomIn(sp.g, sp.live, EntryBytes([1], 1))
    ensures items == [Item0()]
  {
    StoreEnough(sp, [], items, StoreOp(false, false, false), [1], TSTRING, Some([2]), 0, 0, Zero, rc, forcible,
                dropped);
  }

  lemma {:induction false} OneItem()
    ensures Kept([Item0()], 1, 0) == [Item0()] && Find([Item0()], [1]) == 0 && LookedUp([Item0()], [1]) == [Item0()]
    ensures LookupRc([Item0()], [1], 0) == OK && KeysApart([Item0()])
  {
  }

  /** A safe set of the long value then. */
  lemma {:induction false} SecondSet(sp: Space, items: seq<Item>, rc: Rc, forcible: bool, dropped: nat)
    requires StoreResult(sp, [Item0()], items, StoreOp(false, false, true), [1], TSTRING, Some(Wide()), 0, 0, Zero, rc,
                         forcible, dropped)
    requires !RoomWith(sp, [], EntryBytes([1], 200))
    ensures rc == ERROR && Find(items, [1]) == |items|
  {
    OneItem();
    assert Others(sp.addrs, [Item0()], [1], 0) == [];
    hide RoomWith;
    SafeStoreOwn(sp, [Item0()], items, StoreOp(false, false, true), [1], TSTRING, Some(Wide()), 0, 0, Zero, rc,
                 forcible, dropped);
    StoreMemory(sp, [Item0()], items, StoreOp(false, false, true), [1], TSTRING, Some(Wide()), 0, 0, Zero, rc, forcible,
                dropped);
  }

  /** A dictionary in a new pool of 8192 bytes. */
  method Fresh(hash: Hash) returns (d: D.Dict)
    ensures d.Valid() && d.items == [] && d.pool.geo == Small().g && d.pool.live == map[d.header := 128]
    ensures d.headerBytes == 128
    ensures 4096 <= d.header && d.header + 128 <= 8192
    ensures fresh(d) && fresh(d.tree) && fresh(d.lru) && fresh(d.deq)
    ensures fresh(d.pool) && fresh(d.pool.desc) && fresh(d.pool.stats)
  {
    LayoutFits();
    hide SlabLayout.Fits, InitPages;
    var pool := new Slab.Pool(12, 3, 8192);
    assert GeometryOk(pool.geo);
    OneLayout(pool.geo);
    pool.RoomIff(TREE_BYTES);
    RoomAtFirst();
    hide Slab.Pool.Valid, D.Dict.Valid, Slab.Pool.Room, RoomIn, Granted, GeometryOk;
    var made := D.OnInit(hash, pool);
    HeaderChunk(made.header, made.headerBytes);
    d := made;
  }

  /** What a get finds before and after. */
  lemma {:induction false} GetOne(items: seq<Item>, rc: Rc, value: Option<(nat, seq<byte>)>, flags: int, stale: bool)
    requires GetResult([Item0()], items, [1], 0, false, rc, value, flags, stale)
    ensures items == [Item0()] && value == Some((TSTRING, [2]))
  {
    OneItem();
  }

  lemma {:induction false} GetNone(old_: seq<Item>, items: seq<Item>, rc: Rc, value: Option<(nat, seq<byte>)>,
                                   flags: int, stale: bool)
    requires GetResult(old_, items, [1], 0, false, rc, value, flags, stale) && Find(old_, [1]) == |old_|
    ensures value == None
  {
  }

  method SetOne(d: D.Dict)
    requires d.Valid() && d.items == [] && RoomIn(d.pool.geo, d.pool.live, EntryBytes([1], 1))
    modifies d, d.pool, d.pool.desc, d.pool.stats, d.lru, d.tree
    ensures d.Valid() && d.items == [Item0()]
  {
    hide D.Dict.Valid, StoreResult, RoomIn;
    ghost var sp := d.Memory();
    var number := [0, 0, 0, 0, 0, 0, 0, 0];
    var set_ := StoreOp(false, false, false);
    var rc, forcible;
    ghost var dropped;
    rc, forcible, dropped := d.Store(set_, [1], TSTRING, Some([2]), number, false, 0, 0, Zero);
    FirstSet(sp, d.items, rc, forcible, dropped);
  }

  method SafeSetOne(d: D.Dict) returns (rc: Rc)
    requires d.Valid() && d.items == [Item0()] && d.headerBytes == 128 && d.pool.geo == Small().g
    requires 4096 <= d.header && d.header + 128 <= 8192
    modifies d, d.pool, d.pool.desc, d.pool.stats, d.lru, d.tree
    ensures d.Valid() && rc == ERROR && Find(d.items, [1]) == |d.items|
  {
    HeaderKept(d);
    hide D.Dict.Valid, StoreResult, RoomWith, Find, Small, Wide;
    ghost var sp := d.Memory();
    var number := [0, 0, 0, 0, 0, 0, 0, 0];
    var safeSet := StoreOp(false, false, true);
    var forcible;
    ghost var dropped;
    rc, forcible, dropped := d.Store(safeSet, [1], TSTRING, Some(Wide()), number, false, 0, 0, Zero);
    HeaderLeft(sp, d.header);
    SecondSet(sp, d.items, rc, forcible, dropped);
  }

  /** mps_shdict_safe_set loses a value that never expires: a new pool, a set, and a safe set of
      a longer value, which fails. The value was there before and no longer is. */
  method SafeSetRun(hash: Hash) returns (before: Option<(nat, seq<byte>)>, rc: Rc, after: Option<(nat, seq<byte>)>)
    ensures before == Some((TSTRING, [2])) && rc == ERROR && after == None
  {
    var d := Fresh(hash);
    RoomBeside(d.header);
    hide D.Dict.Valid, GetResult, RoomIn, Find, Small;
    SetOne(d);
    var found, flags, stale;
    found, before, flags, stale := d.Get([1], false, 0);
    GetOne(d.items, found, before, flags, stale);
    rc := SafeSetOne(d);
    ghost var left := d.items;
    found, after, flags, stale := d.Get([1], false, 0);
    GetNone(left, d.items, found, after, flags, stale);
  }

  lemma {:induction false} HeaderKept(d: D.Dict)
    requires d.Valid()
    ensures d.header in d.pool.live && d.pool.live[d.header] == d.headerBytes
  {
    hide SnapOk, Slab.Pool.Valid, NoneEmpty;
  }
}
