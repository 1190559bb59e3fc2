/** Taking a node out of a represented tree, before any rebalancing. */
module RbSplice {
  import opened Seqs
  import opened RbShape
  import opened RbBalance
  import opened RbMoves

  /** The two parts of a tree around one of its nodes. */
  lemma {:induction false} Locate(t: Tree, x: Off) returns (c: Ctx, u: Tree)
    requires x in Elems(t)
    ensures Plug(c, u) == t && u.Node? && u.x == x
    decreases t
  {
    if x == t.x {
      c, u := Top, t;
    } else if x in Elems(t.l) {
      var ci;
      ci, u := Locate(t.l, x);
      c := Comp(ci, InL(Top, t.x, t.red, t.r));
      PlugComp(ci, InL(Top, t.x, t.red, t.r), u);
    } else {
      var ci;
      ci, u := Locate(t.r, x);
      c := Comp(ci, InR(Top, t.x, t.red, t.l));
      PlugComp(ci, InR(Top, t.x, t.red, t.l), u);
    }
  }

  lemma {:induction false} LocateFocus(m: Mem, s: Off, root: Off, t: Tree, x: Off) returns (c: Ctx, u: Tree)
    requires Focus(m, s, root, Top, t) && x in Elems(t)
    ensures Plug(c, u) == t && u.Node? && u.x == x && Focus(m, s, root, c, u)
  {
    c, u := Locate(t, x);
    CompTop(c);
    FocusIn(m, s, root, c, Top, u);
  }

  /** The hole of `c` holds the child `k` of `x` instead of `x`, and the parent field of
      that child, or of the sentinel, says so. */
  ghost predicate CutOut(m: Mem, n: Mem, s: Off, c: Ctx, x: Off, k: Tree)
    requires !c.Top?
  {
    n.Keys == m.Keys && c.x in m &&
    n[c.x] == (if c.InL? then m[c.x].(left := Rt(k, s)) else m[c.x].(right := Rt(k, s))) &&
    Rt(k, s) in m && n[Rt(k, s)] == m[Rt(k, s)].(parent := c.x) &&
    forall z {:trigger n[z]} :: z in m && z != x && z != Rt(k, s) && z != c.x ==> n[z] == m[z]
  }

  /** A node with at most one child is cut out: its child `k` takes its place. */
  lemma {:induction false} CutFocus(m: Mem, n: Mem, s: Off, root: Off, c: Ctx, t: Tree, k: Tree)
    requires Focus(m, s, root, c, t) && t.Node? && !c.Top? && CutOut(m, n, s, c, t.x, k)
    requires (t.l.Leaf? && k == t.r) || (t.r.Leaf? && k == t.l)
    ensures Focus(n, s, root, c, k)
  {
    hide Rep, Distinct, Elems, Focus, CElems;
    UnfoldFocus(m, s, root, c, t);
    Unfold(m, s, t);
    RepFrame(m, n, s, k);
    FocusGraft(m, n, s, root, root, c, t, k);
  }

  /** The whole right subtree of a node stays represented when its first node is cut
      out of the inside of it. */
  lemma {:induction false} CutInner(m: Mem, n: Mem, s: Off, root: Off, c: Ctx, t: Tree, ci: Ctx, u: Tree)
    requires Focus(m, s, root, c, t) && t.Node? && t.r == Plug(ci, u) && !ci.Top?
    requires u.Node? && u.l.Leaf? && CutOut(m, n, s, ci, u.x, u.r)
    ensures Focus(n, s, root, c, Node(t.l, t.x, t.red, Plug(ci, u.r)))
  {
    var outer := InR(c, t.x, t.red, t.l);
    assert Comp(ci, outer).x == ci.x && CutOut(m, n, s, Comp(ci, outer), u.x, u.r);
    hide Focus, Rep, Distinct, Elems, CElems, Comp, Plug, CutOut;
    FocusRight(m, s, root, c, t);
    FocusIn(m, s, root, ci, outer, u);
    CutFocus(m, n, s, root, Comp(ci, outer), u, u.r);
    FocusOut(n, s, root, ci, outer, u.r);
    FocusUp(n, s, root, outer, Plug(ci, u.r));
  }

  /** Scrubbing the node that was cut out does not matter. */
  lemma {:induction false} CutOutScrubbed(m: Mem, n: Mem, s: Off, root: Off, c: Ctx, t: Tree, k: Tree, v: Link)
    requires Focus(m, s, root, c, t) && t.Node? && !c.Top? && CutOut(m, n, s, c, t.x, k)
    requires (t.l.Leaf? && k == t.r) || (t.r.Leaf? && k == t.l)
    ensures CutOut(m, n[t.x := v], s, c, t.x, k) && n[t.x := v][Rt(k, s)].parent == c.x
  {
    UnfoldFocus(m, s, root, c, t);
    Unfold(m, s, t);
  }

  /** What the program reads at the successor. */
  lemma {:induction false} SuccessorReads(m: Mem, s: Off, root: Off, c: Ctx, t: Tree, ci: Ctx, u: Tree)
    requires Focus(m, s, root, c, t) && t.Node? && t.r == Plug(ci, u) && u.Node? && u.l.Leaf?
    ensures
      var d := Comp(ci, InR(c, t.x, t.red, t.l));
      Focus(m, s, root, d, u) && !d.Top? && d.x in m && u.x in m && m[u.x].parent == d.x && d.x != u.x &&
      (ci.Top? ==> d.x == t.x && d.InR?) && (!ci.Top? ==> d.x == ci.x && (d.InL? <==> ci.InL?) && ci.x != t.x) &&
      Rt(u.r, s) in m && Rt(u.r, s) !in {u.x, d.x, t.x} && u.x != t.x && u.x != s
  {
    var outer := InR(c, t.x, t.red, t.l);
    var d := Comp(ci, outer);
    FocusRight(m, s, root, c, t);
    FocusIn(m, s, root, ci, outer, u);
    UnfoldFocus(m, s, root, d, u);
    Unfold(m, s, u);
    ElemsComp(ci, outer);
    UnfoldFocus(m, s, root, c, t);
    Unfold(m, s, t);
    ElemsPlug(ci, u);
  }

  /** The offset cut out is not used any more. */
  lemma {:induction false} CutFresh(m: Mem, s: Off, root: Off, c: Ctx, t: Tree, ci: Ctx, u: Tree)
    requires Focus(m, s, root, c, t) && t.Node? && t.r == Plug(ci, u) && u.Node? && u.l.Leaf?
    ensures u.x !in Elems(t.l) && u.x != t.x && u.x !in Elems(Plug(ci, u.r)) && u.x !in CElems(c)
    ensures Elems(Plug(ci, u.r)) < Elems(t.r) && u.x in m && u.x != s
  {
    var outer := InR(c, t.x, t.red, t.l);
    FocusRight(m, s, root, c, t);
    FocusIn(m, s, root, ci, outer, u);
    ElemsComp(ci, outer);
    ElemsPlug(ci, u);
    ElemsPlug(ci, u.r);
    UnfoldFocus(m, s, root, Comp(ci, outer), u);
    Unfold(m, s, u);
  }

  lemma {:induction false} ElemsComp(ci: Ctx, outer: Ctx)
    ensures CElems(Comp(ci, outer)) == CElems(ci) + CElems(outer)
  {
    if !ci.Top? { ElemsComp(ci.up, outer); }
  }

  /** The records around a node whose right subtree `r` may not be linked back to it. */
  ghost predicate Loose(m: Mem, s: Off, root: Off, c: Ctx, l: Tree, x: Off, red: bool, r: Tree) {
    s in m && !m[s].red && Rep(m, s, l) && Rep(m, s, r) && CRep(m, s, c, x, root) &&
    Distinct(Node(l, x, red, r)) && CDistinct(c) && Elems(Node(l, x, red, r)) !! CElems(c) &&
    x in m && m[x].left == Rt(l, s) && m[x].right == Rt(r, s) && m[x].red == red &&
    (!c.Top? ==> m[x].parent == c.x)
  }

  /** Cutting the successor `u` out of the right subtree of the node in focus. */
  ghost predicate Spliced(m: Mem, n: Mem, s: Off, t: Tree, ci: Ctx, u: Tree)
    requires t.Node? && u.Node?
  {
    if ci.Top? then
      n.Keys == m.Keys && t.x in m && n[t.x] == m[t.x].(right := Rt(u.r, s)) &&
      Rt(u.r, s) in m && n[Rt(u.r, s)] == m[Rt(u.r, s)].(parent := u.x) &&
      forall z {:trigger n[z]} :: z in m && z != t.x && z != Rt(u.r, s) ==> n[z] == m[z]
    else CutOut(m, n, s, ci, u.x, u.r)
  }

  lemma {:induction false} SplicedLoose(m: Mem, n: Mem, s: Off, root: Off, c: Ctx, t: Tree, ci: Ctx, u: Tree)
    requires Focus(m, s, root, c, t) && t.Node? && t.r == Plug(ci, u) && u.Node? && u.l.Leaf?
    requires Spliced(m, n, s, t, ci, u)
    ensures Loose(n, s, root, c, t.l, t.x, t.red, Plug(ci, u.r))
  {
    UnfoldFocus(m, s, root, c, t);
    if ci.Top? {
      SplicedNext(m, n, s, root, c, t);
    } else {
      CutInner(m, n, s, root, c, t, ci, u);
      UnfoldFocus(n, s, root, c, Node(t.l, t.x, t.red, Plug(ci, u.r)));
    }
  }

  /** The successor is the right child itself. */
  lemma {:induction false} SplicedNext(m: Mem, n: Mem, s: Off, root: Off, c: Ctx, t: Tree)
    requires Focus(m, s, root, c, t) && t.Node? && t.r.Node? && t.r.l.Leaf?
    requires Spliced(m, n, s, t, Top, t.r)
    ensures Loose(n, s, root, c, t.l, t.x, t.red, t.r.r)
  {
    UnfoldFocus(m, s, root, c, t);
    assert CRep(m, s, c, t.x, root) && CDistinct(c);
    Unfold(m, s, t);
    Unfold(m, s, t.r);
    RepFrame(m, n, s, t.l);
    RepFrame(m, n, s, t.r.r);
    CRepFrame(m, n, s, c, t.x, root);
  }

  /** Another node takes the place of `x`. */
  lemma {:induction false} ReplaceFocus(m: Mem, n: Mem, s: Off, root: Off, root': Off, c: Ctx, l: Tree, x: Off,
                                        red: bool, r: Tree, y: Off)
    requires Loose(m, s, root, c, l, x, red, r) && n.Keys == m.Keys
    requires y in m && y != s && y != x && y !in Elems(l) && y !in Elems(r) && y !in CElems(c)
    requires n[y] == m[x] && HoleSet(m, n, c, root, root', y)
    requires l.Node? ==> l.x in m && n[l.x] == m[l.x].(parent := y)
    requires r.Node? ==> r.x in m && n[r.x] == m[r.x].(parent := y)
    requires forall z {:trigger n[z]} ::
      z in m && z != x && z != y && z != Rt(l, x) && z != Rt(r, x) && (c.Top? || z != c.x) ==> n[z] == m[z]
    requires x != s
    ensures Focus(n, s, root', c, Node(l, y, red, r)) && n[s] == m[s]
  {
    LooseOffsets(m, s, root, c, l, x, red, r);
    ReplaceFrames(m, n, s, root, c, l, x, red, r, y);
    hide Loose, Rep, Distinct, Elems, CElems, CRep, CDistinct, Relinked, SameBelow;
    RepFrame(m, n, s, l);
    RepFrame(m, n, s, r);
    Fold(n, s, l, y, red, r);
    ReplaceRelinks(m, n, s, root, root', c, l, x, red, r, y);
    CRepRelink(m, n, s, c, x, root, root', y);
  }

  lemma {:induction false} ReplaceFrames(m: Mem, n: Mem, s: Off, root: Off, c: Ctx, l: Tree, x: Off, red: bool, r: Tree,
                                         y: Off)
    requires Loose(m, s, root, c, l, x, red, r) && n.Keys == m.Keys
    requires y !in Elems(l) && y !in Elems(r)
    requires l.Node? ==> l.x in m && n[l.x] == m[l.x].(parent := y)
    requires r.Node? ==> r.x in m && n[r.x] == m[r.x].(parent := y)
    requires forall z {:trigger n[z]} ::
      z in m && z != x && z != y && z != Rt(l, x) && z != Rt(r, x) && (c.Top? || z != c.x) ==> n[z] == m[z]
    ensures SameBelow(m, n, l) && SameBelow(m, n, r)
  {
    LooseOffsets(m, s, root, c, l, x, red, r);
    hide Loose, Rep, Distinct, Elems, CElems, CRep, CDistinct;
    assert Rt(r, x) !in Elems(l) && CRt(c, x) !in Elems(l);
    assert Rt(l, x) !in Elems(r) && CRt(c, x) !in Elems(r);
  }

  lemma {:induction false} LooseOffsets(m: Mem, s: Off, root: Off, c: Ctx, l: Tree, x: Off, red: bool, r: Tree)
    requires Loose(m, s, root, c, l, x, red, r)
    ensures Rep(m, s, l) && Rep(m, s, r) && CRep(m, s, c, x, root) && CDistinct(c) && Distinct(l) && Distinct(r)
    ensures s in m && !m[s].red && x in m && m[x].left == Rt(l, s) && m[x].right == Rt(r, s) && m[x].red == red
    ensures !c.Top? ==> m[x].parent == c.x && c.x in CElems(c)
    ensures Elems(l) !! Elems(r) && Elems(l) !! CElems(c) && Elems(r) !! CElems(c)
    ensures x !in CElems(c) && x !in Elems(l) && x !in Elems(r)
    ensures Elems(l) <= m.Keys && Elems(r) <= m.Keys && CElems(c) <= m.Keys
    ensures s !in Elems(l) && s !in Elems(r) && s !in CElems(c)
    ensures l.Node? ==> l.x in Elems(l)
    ensures r.Node? ==> r.x in Elems(r)
  {
    RepIn(m, s, l);
    RepIn(m, s, r);
    CRepIn(m, s, c, x, root);
    assert Elems(Node(l, x, red, r)) == Elems(l) + {x} + Elems(r);
  }

  lemma {:induction false} LooseFrame(m: Mem, s: Off, root: Off, c: Ctx, l: Tree, x: Off, red: bool, r: Tree)
    requires Loose(m, s, root, c, l, x, red, r) && x != s
    ensures !c.Top? ==> x in m && CReads(m, s, c, x)
    ensures c.Top? <==> x == root
  {
    LooseOffsets(m, s, root, c, l, x, red, r);
    CRepIn(m, s, c, x, root);
    assert !c.Top? && c.sib.Node? ==> c.sib.x in Elems(c.sib);
  }

  lemma {:induction false} ReplaceRelinks(m: Mem, n: Mem, s: Off, root: Off, root': Off, c: Ctx, l: Tree, x: Off,
                                          red: bool, r: Tree, y: Off)
    requires Loose(m, s, root, c, l, x, red, r) && n.Keys == m.Keys
    requires y !in CElems(c) && y != s && HoleSet(m, n, c, root, root', y) && x != s
    requires forall z {:trigger n[z]} ::
      z in m && z != x && z != y && z != Rt(l, x) && z != Rt(r, x) && (c.Top? || z != c.x) ==> n[z] == m[z]
    ensures Relinked(m, n, c, root, root', y) && n[s] == m[s]
  {
    LooseOffsets(m, s, root, c, l, x, red, r);
    hide Loose, Rep, Distinct, Elems, CElems, CRep, CDistinct;
    assert Rt(l, x) !in CElems(c) && Rt(r, x) !in CElems(c);
    assert n[s] == m[s];
    forall z | z in CElems(c) && (c.Top? || z != c.x) ensures n[z] == m[z] { }
  }

  // ---------- sequences and colours ----------

  ghost function Pos(c: Ctx, t: Tree): nat
    requires t.Node?
  {
    |Before(c)| + |Inorder(t.l)|
  }

  lemma {:induction false} CutSeq(a: seq<Off>, l: seq<Off>, x: Off, r: seq<Off>, b: seq<Off>)
    ensures (a + (l + [x] + r) + b)[|a| + |l|] == x
    ensures Dropped(a + (l + [x] + r) + b, |a| + |l|) == a + (l + r) + b
  {
  }

  lemma {:induction false} CutInorder(t: Tree, k: Tree)
    requires t.Node? && ((t.l.Leaf? && k == t.r) || (t.r.Leaf? && k == t.l))
    ensures Inorder(k) == Inorder(t.l) + Inorder(t.r) && Inorder(t) == Inorder(t.l) + [t.x] + Inorder(t.r)
  {
    if t.l.Leaf? {
      assert Inorder(t.l) == [];
    } else {
      assert Inorder(t.r) == [];
    }
  }

  lemma {:induction false} CutSeen(c: Ctx, t: Tree, k: Tree)
    requires t.Node? && ((t.l.Leaf? && k == t.r) || (t.r.Leaf? && k == t.l))
    ensures Seen(c, t)[Pos(c, t)] == t.x && Seen(c, k) == Dropped(Seen(c, t), Pos(c, t))
  {
    CutInorder(t, k);
    hide Inorder, Before, After;
    CutSeq(Before(c), Inorder(t.l), t.x, Inorder(t.r), After(c));
  }

  /** At the end of a leftmost path is the first node. */
  lemma {:induction false} FirstSeen(ci: Ctx, u: Tree)
    requires u.Node? && u.l.Leaf? && Before(ci) == []
    ensures Inorder(Plug(ci, u)) == [u.x] + Inorder(Plug(ci, u.r))
  {
    SeenIsInorder(ci, u);
    SeenIsInorder(ci, u.r);
    assert Inorder(u) == [u.x] + Inorder(u.r);
  }

  /** The successor is the first node of the right subtree. */
  lemma {:induction false} SpliceSeen(c: Ctx, t: Tree, ci: Ctx, u: Tree)
    requires t.Node? && u.Node? && u.l.Leaf? && t.r == Plug(ci, u) && Before(ci) == []
    ensures Seen(c, t)[Pos(c, t)] == t.x
    ensures Seen(c, Node(t.l, u.x, t.red, Plug(ci, u.r))) == Dropped(Seen(c, t), Pos(c, t))
  {
    FirstSeen(ci, u);
    CutSeq(Before(c), Inorder(t.l), t.x, Inorder(t.r), After(c));
    var v := Node(t.l, u.x, t.red, Plug(ci, u.r));
    assert Inorder(v) == Inorder(t.l) + Inorder(t.r) by {
      hide Before, After, Plug, Seen, Dropped;
      assert Inorder(v) == Inorder(t.l) + [u.x] + Inorder(v.r);
    }
  }

  /** The colours of a context do not depend on the offsets in it. */
  lemma {:induction false} CompColours(ci: Ctx, c: Ctx, x: Off, y: Off, red: bool, l: Tree, n: nat)
    requires CNoRedRed(Comp(ci, InR(c, x, red, l))) && CBalanced(Comp(ci, InR(c, x, red, l)), n)
    ensures CNoRedRed(Comp(ci, InR(c, y, red, l))) && CBalanced(Comp(ci, InR(c, y, red, l)), n)
    ensures RedParent(Comp(ci, InR(c, x, red, l))) <==> RedParent(Comp(ci, InR(c, y, red, l)))
  {
    if !ci.Top? { CompColours(ci.up, c, x, y, red, l, n + if ci.red then 0 else 1); }
  }

  /** Cutting a node with at most one child out of a red-black tree: nothing is missing
      when it was red, one black node when it was black. */
  lemma {:induction false} CutShort(c: Ctx, t: Tree, k: Tree)
    requires RedBlack(Plug(c, t)) && t.Node? && ((t.l.Leaf? && k == t.r) || (t.r.Leaf? && k == t.l))
    ensures CNoRedRed(c) && NoRedRed(k) && Balanced(k) && NoRedRed(Blacken(k)) && Balanced(Blacken(k))
    ensures t.red ==> k.Leaf? && CBalanced(c, BlackHeight(k)) && RedAtHole(c, k) && RedBlack(Plug(c, k))
    ensures !t.red ==> ShortAtHole(c, k)
  {
    RedBlackPlug(c, t);
    if t.red { PlugRedBlack(c, k); }
  }

  /** The same when the node is replaced by its successor `u`. */
  lemma {:induction false} SpliceShort(c: Ctx, t: Tree, ci: Ctx, u: Tree)
    requires RedBlack(Plug(c, t)) && t.Node? && u.Node? && u.l.Leaf? && t.r == Plug(ci, u)
    ensures
      var d := Comp(ci, InR(c, u.x, t.red, t.l));
      (u.red ==> RedBlack(Plug(d, u.r))) && (!u.red ==> ShortAtHole(d, u.r))
  {
    var d0, d := Comp(ci, InR(c, t.x, t.red, t.l)), Comp(ci, InR(c, u.x, t.red, t.l));
    PlugComp(ci, InR(c, t.x, t.red, t.l), u);
    CutShort(d0, u, u.r);
    CompColours(ci, c, t.x, u.x, t.red, t.l, BlackHeight(u.r) + if u.red then 0 else 1);
    if u.red { PlugRedBlack(d, u.r); }
  }

  lemma {:induction false} SeenIn(ci: Ctx, c: Ctx, l: Tree, y: Off, red: bool, k: Tree)
    ensures Seen(Comp(ci, InR(c, y, red, l)), k) == Seen(c, Node(l, y, red, Plug(ci, k)))
  {
    var d := InR(c, y, red, l);
    SeenIsInorder(Comp(ci, d), k);
    PlugComp(ci, d, k);
    SeenIsInorder(c, Node(l, y, red, Plug(ci, k)));
  }

  /** The root, with at most one child `k`, is replaced by that child, blackened; the
      parent field of the new root keeps pointing at the old one. */
  lemma {:induction false} RootCut(m: Mem, s: Off, root: Off, t: Tree, k: Tree, v: Link)
    requires Focus(m, s, root, Top, t) && RedBlack(t) && t.Node?
    requires (t.l.Leaf? && k == t.r) || (t.r.Leaf? && k == t.l)
    ensures Rt(k, s) in m && t.x in m && t.x != Rt(k, s)
    ensures Focus(m[Rt(k, s) := m[Rt(k, s)].(red := false)][t.x := v], s, Rt(k, s), Top, Blacken(k))
    ensures RedBlack(Blacken(k)) && Inorder(Blacken(k)) == Dropped(Seen(Top, t), Pos(Top, t))
  {
    UnfoldFocus(m, s, root, Top, t);
    Unfold(m, s, t);
    CutShort(Top, t, k);
    CutSeen(Top, t, k);
    assert Inorder(Blacken(k)) == Inorder(k) == Seen(Top, k);
    if k.Node? {
      RepIn(m, s, k);
      Unfold(m, s, k);
      var n := m[Rt(k, s) := m[Rt(k, s)].(red := false)][t.x := v];
      RepFrame(m, n, s, k.l);
      RepFrame(m, n, s, k.r);
      Fold(n, s, k.l, k.x, false, k.r);
    }
  }

  /** The offsets left after a deletion. */
  lemma {:induction false} DeletedElems(t: Tree, u: Tree, i: nat)
    requires i < |Inorder(t)| && Inorder(u) == Dropped(Inorder(t), i) && Distinct(t)
    ensures Elems(u) == Elems(t) - {Inorder(t)[i]}
  {
    InorderElems(t);
    InorderElems(u);
    DistinctNoDup(t);
    DroppedIn(Inorder(t), i);
  }
}
