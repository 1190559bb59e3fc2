/** What recolouring and rotating do to a represented tree. */
module RbMoves {
  import opened RbShape

  ghost function RotatedLeft(t: Tree): Tree
    requires t.Node? && t.r.Node?
  {
    Node(Node(t.l, t.x, t.red, t.r.l), t.r.x, t.r.red, t.r.r)
  }

  ghost function RotatedRight(t: Tree): Tree
    requires t.Node? && t.l.Node?
  {
    Node(t.l.l, t.l.x, t.l.red, Node(t.l.r, t.x, t.red, t.r))
  }

  /** No record appears or disappears, and the sentinel is not written. */
  ghost predicate Kept(m: Mem, n: Mem, s: Off) {
    n.Keys == m.Keys && s in m && n[s] == m[s]
  }

  lemma {:induction false} Unfold(m: Mem, s: Off, t: Tree)
    requires Rep(m, s, t) && Distinct(t) && t.Node?
    ensures Rep(m, s, t.l) && Rep(m, s, t.r) && Distinct(t.l) && Distinct(t.r)
    ensures ParentIs(m, t.l, t.x) && ParentIs(m, t.r, t.x)
    ensures t.x != s && t.x in m && m[t.x].red == t.red && m[t.x].left == Rt(t.l, s) && m[t.x].right == Rt(t.r, s)
    ensures Elems(t) == Elems(t.l) + {t.x} + Elems(t.r)
    ensures t.x !in Elems(t.l) && t.x !in Elems(t.r) && Elems(t.l) !! Elems(t.r)
    ensures t.l.Node? ==> t.l.x in Elems(t.l)
    ensures t.r.Node? ==> t.r.x in Elems(t.r)
  {
  }

  lemma {:induction false} Fold(m: Mem, s: Off, l: Tree, x: Off, red: bool, r: Tree)
    requires Rep(m, s, l) && Rep(m, s, r) && Distinct(l) && Distinct(r)
    requires ParentIs(m, l, x) && ParentIs(m, r, x)
    requires x != s && x in m && m[x].red == red && m[x].left == Rt(l, s) && m[x].right == Rt(r, s)
    requires x !in Elems(l) && x !in Elems(r) && Elems(l) !! Elems(r)
    ensures Rep(m, s, Node(l, x, red, r)) && Distinct(Node(l, x, red, r))
    ensures Elems(Node(l, x, red, r)) == Elems(l) + {x} + Elems(r)
  {
  }

  /** The parent link of `x` leads to the frame of the hole it sits in, which links back. */
  ghost predicate CReads(m: Mem, s: Off, c: Ctx, x: Off)
    requires !c.Top? && x in m
  {
    m[x].parent == c.x && c.x in m && c.x != s && (m[c.x].left == x <==> c.InL?) && (m[c.x].right == x <==> c.InR?)
  }

  lemma {:induction false} UnfoldFocus(m: Mem, s: Off, root: Off, c: Ctx, t: Tree)
    requires Focus(m, s, root, c, t)
    ensures s in m && !m[s].red && Rep(m, s, t) && Distinct(t) && Elems(t) !! CElems(c)
    ensures !c.Top? ==> ParentIs(m, t, c.x) && c.x in CElems(c)
    ensures Elems(t) <= m.Keys && CElems(c) <= m.Keys && s !in Elems(t) && s !in CElems(c)
    ensures Rt(t, s) == root <==> c.Top?
    ensures !c.Top? && t.Node? ==> CReads(m, s, c, t.x)
  {
    RepIn(m, s, t);
    CRepIn(m, s, c, Rt(t, s), root);
  }

  ghost function CRt(c: Ctx, o: Off): Off {
    if c.Top? then o else c.x
  }

  /** The hole of `c` now holds `o`: only the frame record, or the root, is different. */
  ghost predicate HoleSet(m: Mem, n: Mem, c: Ctx, root: Off, root': Off, o: Off) {
    if c.Top? then root' == o
    else root' == root && c.x in m && c.x in n &&
         n[c.x] == if c.InL? then m[c.x].(left := o) else m[c.x].(right := o)
  }

  /** The records after a left rotation at `t`. */
  ghost predicate LeftRotated(m: Mem, n: Mem, root: Off, root': Off, c: Ctx, t: Tree)
    requires t.Node? && t.r.Node? && t.x in m && t.r.x in m
  {
    n.Keys == m.Keys &&
    n[t.x] == m[t.x].(right := m[t.r.x].left, parent := t.r.x) &&
    n[t.r.x] == m[t.r.x].(left := t.x, parent := m[t.x].parent) &&
    (t.r.l.Node? ==> t.r.l.x in m && n[t.r.l.x] == m[t.r.l.x].(parent := t.x)) &&
    HoleSet(m, n, c, root, root', t.r.x) &&
    forall z {:trigger n[z]} ::
      z in m && z != t.x && z != t.r.x && z != Rt(t.r.l, t.x) && z != CRt(c, t.x) ==> n[z] == m[z]
  }

  ghost predicate RightRotated(m: Mem, n: Mem, root: Off, root': Off, c: Ctx, t: Tree)
    requires t.Node? && t.l.Node? && t.x in m && t.l.x in m
  {
    n.Keys == m.Keys &&
    n[t.x] == m[t.x].(left := m[t.l.x].right, parent := t.l.x) &&
    n[t.l.x] == m[t.l.x].(right := t.x, parent := m[t.x].parent) &&
    (t.l.r.Node? ==> t.l.r.x in m && n[t.l.r.x] == m[t.l.r.x].(parent := t.x)) &&
    HoleSet(m, n, c, root, root', t.l.x) &&
    forall z {:trigger n[z]} ::
      z in m && z != t.x && z != t.l.x && z != Rt(t.l.r, t.x) && z != CRt(c, t.x) ==> n[z] == m[z]
  }

  lemma {:induction false} PaintFocus(m: Mem, s: Off, root: Off, c: Ctx, t: Tree, red: bool)
    requires Focus(m, s, root, c, t) && t.Node?
    ensures t.x in m && var n := m[t.x := m[t.x].(red := red)]; Focus(n, s, root, c, t.(red := red)) && Kept(m, n, s)
  {
    hide Rep, Distinct, Elems, Focus, CElems;
    UnfoldFocus(m, s, root, c, t);
    Unfold(m, s, t);
    var n := m[t.x := m[t.x].(red := red)];
    RepFrame(m, n, s, t.l);
    RepFrame(m, n, s, t.r);
    Fold(n, s, t.l, t.x, red, t.r);
    FocusGraft(m, n, s, root, root, c, t, t.(red := red));
  }

  /** A rotation at `t` touches nothing above its hole but the link in the hole. */
  lemma {:induction false} RotatedRelinks(m: Mem, n: Mem, s: Off, root: Off, root': Off, c: Ctx, t: Tree, y: Off,
                                          b: Off)
    requires Focus(m, s, root, c, t) && t.Node? && n.Keys == m.Keys
    requires HoleSet(m, n, c, root, root', y) && y in Elems(t) && b in Elems(t)
    requires forall z {:trigger n[z]} :: z in m && z != t.x && z != y && z != b && z != CRt(c, t.x) ==> n[z] == m[z]
    ensures Relinked(m, n, c, root, root', y) && s in n && n[s] == m[s]
  {
    hide Rep, Distinct, Elems, Focus, CElems;
    UnfoldFocus(m, s, root, c, t);
    Unfold(m, s, t);
  }

  /** What a rotation reads, and that the records it writes are different. */
  lemma {:induction false} LeftRotateReads(m: Mem, s: Off, root: Off, c: Ctx, t: Tree)
    requires Focus(m, s, root, c, t) && t.Node? && t.r.Node?
    ensures s in m && t.x in m && t.r.x in m && m[t.x].right == t.r.x && m[t.r.x].left == Rt(t.r.l, s)
    ensures t.x != s && t.r.x != s && t.x != t.r.x
    ensures t.r.l.Node? ==> t.r.l.x in m && t.r.l.x != s && t.r.l.x != t.x && t.r.l.x != t.r.x
    ensures t.x == root <==> c.Top?
    ensures !c.Top? ==> CReads(m, s, c, t.x) && c.x !in {t.x, t.r.x, Rt(t.r.l, t.x)}
  {
    hide Rep, Distinct, Elems, Focus, CElems;
    UnfoldFocus(m, s, root, c, t);
    Unfold(m, s, t);
    Unfold(m, s, t.r);
  }

  lemma {:induction false} RightRotateReads(m: Mem, s: Off, root: Off, c: Ctx, t: Tree)
    requires Focus(m, s, root, c, t) && t.Node? && t.l.Node?
    ensures s in m && t.x in m && t.l.x in m && m[t.x].left == t.l.x && m[t.l.x].right == Rt(t.l.r, s)
    ensures t.x != s && t.l.x != s && t.x != t.l.x
    ensures t.l.r.Node? ==> t.l.r.x in m && t.l.r.x != s && t.l.r.x != t.x && t.l.r.x != t.l.x
    ensures t.x == root <==> c.Top?
    ensures !c.Top? ==> CReads(m, s, c, t.x) && c.x !in {t.x, t.l.x, Rt(t.l.r, t.x)}
  {
    hide Rep, Distinct, Elems, Focus, CElems;
    UnfoldFocus(m, s, root, c, t);
    Unfold(m, s, t);
    Unfold(m, s, t.l);
  }

  lemma {:induction false} LeftRotateFrames(m: Mem, n: Mem, s: Off, root: Off, root': Off, c: Ctx, t: Tree)
    requires Focus(m, s, root, c, t) && t.Node? && t.r.Node? && t.x in m && t.r.x in m
    requires LeftRotated(m, n, root, root', c, t)
    ensures SameBelow(m, n, t.l) && SameBelow(m, n, t.r.r) && SameBelow(m, n, t.r.l)
  {
    hide Rep, Distinct, Elems, Focus, CElems;
    UnfoldFocus(m, s, root, c, t);
    Unfold(m, s, t);
    Unfold(m, s, t.r);
  }

  /** The records of the rotated subtree. */
  lemma {:induction false} LeftRotateRep(m: Mem, n: Mem, s: Off, root: Off, root': Off, c: Ctx, t: Tree)
    requires Focus(m, s, root, c, t) && t.Node? && t.r.Node? && t.x in m && t.r.x in m
    requires LeftRotated(m, n, root, root', c, t)
    ensures Rep(n, s, RotatedLeft(t)) && Distinct(RotatedLeft(t)) && Elems(RotatedLeft(t)) == Elems(t)
  {
    LeftRotateFrames(m, n, s, root, root', c, t);
    hide Rep, Distinct, Elems, Focus, CElems, SameBelow;
    var a, y, b, d := t.l, t.r, t.r.l, t.r.r;
    UnfoldFocus(m, s, root, c, t);
    Unfold(m, s, t);
    Unfold(m, s, y);
    RepFrame(m, n, s, a);
    RepFrame(m, n, s, b);
    RepFrame(m, n, s, d);
    Fold(n, s, a, t.x, t.red, b);
    Fold(n, s, Node(a, t.x, t.red, b), y.x, y.red, d);
  }

  lemma {:induction false} LeftRotateFocus(m: Mem, n: Mem, s: Off, root: Off, root': Off, c: Ctx, t: Tree)
    requires Focus(m, s, root, c, t) && t.Node? && t.r.Node? && t.x in m && t.r.x in m
    requires LeftRotated(m, n, root, root', c, t)
    ensures Focus(n, s, root', c, RotatedLeft(t)) && Kept(m, n, s)
  {
    LeftRotateRep(m, n, s, root, root', c, t);
    hide Rep, Distinct, Elems, Focus, CElems, Relinked;
    UnfoldFocus(m, s, root, c, t);
    Unfold(m, s, t);
    Unfold(m, s, t.r);
    RotatedRelinks(m, n, s, root, root', c, t, t.r.x, Rt(t.r.l, t.x));
    FocusGraft(m, n, s, root, root', c, t, RotatedLeft(t));
  }

  lemma {:induction false} RightRotateFrames(m: Mem, n: Mem, s: Off, root: Off, root': Off, c: Ctx, t: Tree)
    requires Focus(m, s, root, c, t) && t.Node? && t.l.Node? && t.x in m && t.l.x in m
    requires RightRotated(m, n, root, root', c, t)
    ensures SameBelow(m, n, t.r) && SameBelow(m, n, t.l.l) && SameBelow(m, n, t.l.r)
  {
    hide Rep, Distinct, Elems, Focus, CElems;
    UnfoldFocus(m, s, root, c, t);
    Unfold(m, s, t);
    Unfold(m, s, t.l);
  }

  /** The records of the rotated subtree. */
  lemma {:induction false} RightRotateRep(m: Mem, n: Mem, s: Off, root: Off, root': Off, c: Ctx, t: Tree)
    requires Focus(m, s, root, c, t) && t.Node? && t.l.Node? && t.x in m && t.l.x in m
    requires RightRotated(m, n, root, root', c, t)
    ensures Rep(n, s, RotatedRight(t)) && Distinct(RotatedRight(t)) && Elems(RotatedRight(t)) == Elems(t)
  {
    RightRotateFrames(m, n, s, root, root', c, t);
    hide Rep, Distinct, Elems, Focus, CElems, SameBelow;
    var a, y, b, d := t.r, t.l, t.l.r, t.l.l;
    UnfoldFocus(m, s, root, c, t);
    Unfold(m, s, t);
    Unfold(m, s, y);
    RepFrame(m, n, s, a);
    RepFrame(m, n, s, b);
    RepFrame(m, n, s, d);
    Fold(n, s, b, t.x, t.red, a);
    Fold(n, s, d, y.x, y.red, Node(b, t.x, t.red, a));
  }

  lemma {:induction false} RightRotateFocus(m: Mem, n: Mem, s: Off, root: Off, root': Off, c: Ctx, t: Tree)
    requires Focus(m, s, root, c, t) && t.Node? && t.l.Node? && t.x in m && t.l.x in m
    requires RightRotated(m, n, root, root', c, t)
    ensures Focus(n, s, root', c, RotatedRight(t)) && Kept(m, n, s)
  {
    RightRotateRep(m, n, s, root, root', c, t);
    hide Rep, Distinct, Elems, Focus, CElems, Relinked;
    UnfoldFocus(m, s, root, c, t);
    Unfold(m, s, t);
    Unfold(m, s, t.l);
    RotatedRelinks(m, n, s, root, root', c, t, t.l.x, Rt(t.l.r, t.x));
    FocusGraft(m, n, s, root, root', c, t, RotatedRight(t));
  }

  lemma {:induction false} AttachFocus(m: Mem, n: Mem, s: Off, root: Off, c: Ctx, node: Off)
    requires Focus(m, s, root, c, Leaf) && !c.Top? && node in m && node != s && node !in CElems(c)
    requires c.x in m && HoleSet(m, n, c, root, root, node) && n.Keys == m.Keys
    requires n[node] == Link(s, s, c.x, true)
    requires forall z :: z in m && z != node && z != c.x ==> n[z] == m[z]
    ensures Focus(n, s, root, c, Node(Leaf, node, true, Leaf)) && Kept(m, n, s)
  {
    UnfoldFocus(m, s, root, c, Leaf);
    FocusGraft(m, n, s, root, root, c, Leaf, Node(Leaf, node, true, Leaf));
  }
}
