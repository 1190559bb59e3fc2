/** The colour arguments of the two rebalancing loops: what one step of a loop does to
    the tree in focus, and that it keeps what the loop relies on. */
module RbFixup {
  import opened RbShape
  import opened RbBalance
  import opened RbMoves

  lemma {:induction false} InorderPainted(t: Tree, red: bool)
    requires t.Node?
    ensures Inorder(t.(red := red)) == Inorder(t)
  {
  }

  lemma {:induction false} InorderRotated(t: Tree)
    requires t.Node?
    ensures t.r.Node? ==> Inorder(RotatedLeft(t)) == Inorder(t)
    ensures t.l.Node? ==> Inorder(RotatedRight(t)) == Inorder(t)
  {
    if t.r.Node? { Reassociate(Inorder(t.l), t.x, Inorder(t.r.l), t.r.x, Inorder(t.r.r)); }
    if t.l.Node? { Reassociate(Inorder(t.l.l), t.l.x, Inorder(t.l.r), t.x, Inorder(t.r)); }
  }

  /** Colours and black height of a node from those of its children. */
  lemma {:induction false} Colours(t: Tree)
    requires t.Node?
    ensures NoRedRed(t) <==> (t.red ==> !IsRed(t.l) && !IsRed(t.r)) && NoRedRed(t.l) && NoRedRed(t.r)
    ensures Balanced(t) <==> Balanced(t.l) && Balanced(t.r) && BlackHeight(t.l) == BlackHeight(t.r)
    ensures BlackHeight(t) == BlackHeight(t.l) + if t.red then 0 else 1
  {
  }

  // ---------- insertion ----------

  /** A red node under a red parent, the uncle red as well: recolour and go up two. */
  ghost function Recolored(c: Ctx, t: Tree): Tree
    requires RedParent(c) && !c.up.Top? && c.up.sib.Node?
  {
    Grow(c.up.(red := true, sib := c.up.sib.(red := false)), Grow(c.(red := false), t))
  }

  lemma {:induction false} RecoloredKeeps(c: Ctx, t: Tree)
    requires RedAtHole(c, t) && IsRed(t) && RedParent(c) && IsRed(c.up.sib)
    ensures RedAtHole(c.up.up, Recolored(c, t)) && Seen(c.up.up, Recolored(c, t)) == Seen(c, t)
  {
    var p, u := Grow(c.(red := false), t), c.up.sib.(red := false);
    var c1 := c.up.(red := true, sib := u);
    SeenUp(c, t);
    SeenUp(c1, p);
    InorderPainted(Grow(c, t), false);
    InorderPainted(c.up.sib, false);
    assert CNoRedRed(c.up) && CBalanced(c.up, BlackHeight(t));
    hide NoRedRed, Balanced, BlackHeight, Inorder, Before, After;
    Colours(p);
    Colours(c.up.sib);
    Colours(u);
    Colours(Recolored(c, t));
  }

  /** The subtree of the red parent, turned so that its red child is on the outside. */
  ghost function Outward(c: Ctx, t: Tree): Tree
    requires RedParent(c) && !c.up.Top? && t.Node?
  {
    var p := Grow(c, t);
    if c.up.InL? then if c.InR? then RotatedLeft(p) else p
    else if c.InL? then RotatedRight(p) else p
  }

  /** The red outer grandchild, after the grandparent is rotated away from it. */
  ghost function Outer(c: Ctx, t: Tree): Tree
    requires RedParent(c) && !c.up.Top? && t.Node?
  {
    if c.up.InL? then Outward(c, t).l else Outward(c, t).r
  }

  ghost function OuterCtx(c: Ctx, t: Tree): Ctx
    requires RedParent(c) && !c.up.Top? && t.Node?
  {
    var q := Outward(c, t);
    if c.up.InL? then InL(c.up.up, q.x, false, Node(q.r, c.up.x, true, c.up.sib))
    else InR(c.up.up, q.x, false, Node(c.up.sib, c.up.x, true, q.l))
  }

  lemma {:induction false} OutwardKeeps(c: Ctx, t: Tree)
    requires RedAtHole(c, t) && IsRed(t) && RedParent(c)
    ensures
      var q := Outward(c, t);
      q.Node? && q.red && Outer(c, t).Node? && Outer(c, t).red &&
      !IsRed(if c.up.InL? then q.r else q.l) && NoRedRed(q.l) && NoRedRed(q.r) && Balanced(q) &&
      BlackHeight(q) == BlackHeight(q.l) == BlackHeight(q.r) == BlackHeight(t)
    ensures Seen(c.up, Outward(c, t)) == Seen(c, t)
  {
    SeenUp(c, t);
    InorderRotated(Grow(c, t));
    hide NoRedRed, Balanced, BlackHeight, Inorder, Before, After, Seen;
    Colours(t);
    Colours(Grow(c, t));
    var q := Outward(c, t);
    Colours(q);
    if q.l.Node? { Colours(q.l); }
    if q.r.Node? { Colours(q.r); }
  }

  lemma {:induction false} OuterKeeps(c: Ctx, t: Tree)
    requires RedAtHole(c, t) && IsRed(t) && RedParent(c) && !IsRed(c.up.sib)
    ensures RedAtHole(OuterCtx(c, t), Outer(c, t)) && IsRed(Outer(c, t))
    ensures Seen(OuterCtx(c, t), Outer(c, t)) == Seen(c, t)
  {
    var q := Outward(c, t);
    var g := Grow(c.up.(red := true), q.(red := false));
    OutwardKeeps(c, t);
    SeenUp(c.up.(red := true), q.(red := false));
    InorderPainted(q, false);
    InorderRotated(g);
    SeenUp(OuterCtx(c, t), Outer(c, t));
    assert CNoRedRed(c.up) && CBalanced(c.up, BlackHeight(t));
    hide NoRedRed, Balanced, BlackHeight, Inorder, Before, After;
    Colours(q);
    Colours(OuterCtx(c, t).sib);
  }

  /** The root record is black unless the root itself is in focus. */
  lemma {:induction false} RootBlack(m: Mem, s: Off, root: Off, c: Ctx, o: Off)
    requires CRep(m, s, c, o, root) && CNoRedRed(c) && !c.Top?
    ensures root in m && !m[root].red
  {
    if !c.up.Top? { RootBlack(m, s, root, c.up, c.x); }
  }

  /** The final blackening of the root. */
  lemma {:induction false} RootBlackened(m: Mem, s: Off, root: Off, c: Ctx, t: Tree)
    requires Focus(m, s, root, c, t) && RedAtHole(c, t) && t.Node? && !(RedParent(c) && t.red)
    ensures root in m
    ensures
      var n := m[root := m[root].(red := false)];
      var w := if c.Top? then t.(red := false) else Plug(c, t);
      Focus(n, s, root, Top, w) && RedBlack(w) && Inorder(w) == Seen(c, t) && Kept(m, n, s)
  {
    FocusRead(m, s, root, c, t);
    if c.Top? {
      PaintFocus(m, s, root, c, t, false);
    } else {
      RootBlack(m, s, root, c, Rt(t, s));
      assert m[root := m[root].(red := false)] == m;
      FocusTop(m, s, root, c, t);
      PlugRedBlack(c, t);
      SeenIsInorder(c, t);
    }
  }

  // ---------- deletion ----------

  /** The child of `w` next to the hole of `c`, and the one away from it. */
  ghost function Near(c: Ctx, w: Tree): Tree
    requires w.Node?
  {
    if c.InL? then w.l else w.r
  }

  ghost function Far(c: Ctx, w: Tree): Tree
    requires w.Node?
  {
    if c.InL? then w.r else w.l
  }

  /** A tree with `near` on the side of the hole of `c`. */
  ghost function Join(c: Ctx, near: Tree, x: Off, red: bool, far: Tree): Tree {
    if c.InL? then Node(near, x, red, far) else Node(far, x, red, near)
  }

  /** The hole of `c` with another sibling, colour and context above. */
  ghost function Frame(c: Ctx, up: Ctx, red: bool, sib: Tree): Ctx
    requires !c.Top?
  {
    if c.InL? then InL(up, c.x, red, sib) else InR(up, c.x, red, sib)
  }

  ghost function FrameAbove(c: Ctx, x: Off, red: bool, sib: Tree): Ctx
    requires !c.Top?
  {
    if c.InL? then InL(c.up, x, red, sib) else InR(c.up, x, red, sib)
  }

  lemma {:induction false} ShortSibling(c: Ctx, t: Tree)
    requires ShortAtHole(c, t) && !c.Top?
    ensures c.sib.Node? && Balanced(c.sib) && NoRedRed(c.sib) && BlackHeight(c.sib) == BlackHeight(t) + 1
    ensures IsRed(c.sib) ==> !c.red && Near(c, c.sib).Node? && !IsRed(Near(c, c.sib))
  {
    Colours(c.sib);
  }

  /** A red sibling is rotated up: the hole goes down one, its new sibling is black. */
  ghost function SiblingUp(c: Ctx): Ctx
    requires !c.Top? && c.sib.Node?
  {
    Frame(c, FrameAbove(c, c.sib.x, false, Far(c, c.sib)), true, Near(c, c.sib))
  }

  lemma {:induction false} SiblingUpKeeps(c: Ctx, t: Tree)
    requires ShortAtHole(c, t) && !IsRed(t) && !c.Top? && IsRed(c.sib)
    ensures ShortAtHole(SiblingUp(c), t) && !IsRed(SiblingUp(c).sib)
    ensures Seen(SiblingUp(c), t) == Seen(c, t)
  {
    var w := c.sib;
    ShortSibling(c, t);
    SeenUp(c, t);
    SeenUp(SiblingUp(c), t);
    SeenUp(SiblingUp(c).up, Grow(SiblingUp(c), t));
    InorderRotated(Grow(c, t));
    assert CNoRedRed(c.up) && CBalanced(c.up, BlackHeight(t) + 2);
    hide NoRedRed, Balanced, BlackHeight, Inorder, Before, After, Seen;
    Colours(w);
    assert CNoRedRed(SiblingUp(c).up) && CBalanced(SiblingUp(c).up, BlackHeight(t) + 1);
  }

  /** Both nephews are black: the sibling turns red and the shortage moves up. */
  ghost function ShortUp(c: Ctx, t: Tree): Tree
    requires !c.Top? && c.sib.Node?
  {
    Grow(c.(sib := c.sib.(red := true)), t)
  }

  lemma {:induction false} ShortUpKeeps(c: Ctx, t: Tree)
    requires ShortAtHole(c, t) && !IsRed(t) && !c.Top? && !IsRed(c.sib)
    requires c.sib.Node? ==> !IsRed(c.sib.l) && !IsRed(c.sib.r)
    ensures c.sib.Node? && ShortAtHole(c.up, ShortUp(c, t)) && Seen(c.up, ShortUp(c, t)) == Seen(c, t)
    ensures IsRed(ShortUp(c, t)) <==> c.red
  {
    ShortSibling(c, t);
    SeenUp(c, t);
    SeenUp(c.(sib := c.sib.(red := true)), t);
    InorderPainted(c.sib, true);
    hide NoRedRed, Balanced, BlackHeight, Inorder, Before, After;
    Colours(c.sib);
    Colours(c.sib.(red := true));
    Colours(ShortUp(c, t));
    Colours(Blacken(ShortUp(c, t)));
  }

  /** The sibling turned so that its red child is away from the hole. */
  ghost function Turned(c: Ctx, w: Tree): Tree
    requires w.Node? && (IsRed(Far(c, w)) || Near(c, w).Node?)
  {
    if IsRed(Far(c, w)) then w
    else Join(c, Near(c, Near(c, w)), Near(c, w).x, false, Join(c, Far(c, Near(c, w)), w.x, true, Far(c, w)))
  }

  lemma {:induction false} TurnedKeeps(c: Ctx, t: Tree)
    requires ShortAtHole(c, t) && !c.Top? && !IsRed(c.sib) && c.sib.Node?
    requires IsRed(Near(c, c.sib)) || IsRed(Far(c, c.sib))
    ensures
      var w := Turned(c, c.sib);
      w.Node? && !w.red && IsRed(Far(c, w)) && NoRedRed(w) && Balanced(w) && BlackHeight(w) == BlackHeight(t) + 1
    ensures Inorder(Turned(c, c.sib)) == Inorder(c.sib)
    ensures ShortAtHole(Frame(c, c.up, c.red, Turned(c, c.sib)), t)
  {
    var w := c.sib;
    var v := Turned(c, w);
    ShortSibling(c, t);
    InorderRotated(w);
    hide NoRedRed, Balanced, BlackHeight, Inorder;
    Colours(w);
    if !IsRed(Far(c, w)) {
      Colours(Near(c, w));
      Colours(Far(c, v));
      Colours(v);
    }
  }

  /** The sibling, its far child red, rotated up in place of the parent of the hole. */
  ghost function Filled(c: Ctx, t: Tree): Tree
    requires !c.Top? && c.sib.Node? && Far(c, c.sib).Node?
  {
    Join(c, Join(c, t, c.x, false, Near(c, c.sib)), c.sib.x, c.red, Far(c, c.sib).(red := false))
  }

  lemma {:induction false} FilledKeeps(c: Ctx, t: Tree)
    requires ShortAtHole(c, t) && !IsRed(t) && !c.Top? && !IsRed(c.sib) && c.sib.Node? && IsRed(Far(c, c.sib))
    ensures RedBlack(Plug(c.up, Filled(c, t))) && Inorder(Plug(c.up, Filled(c, t))) == Seen(c, t)
  {
    var f := Filled(c, t);
    ShortSibling(c, t);
    SeenUp(c, t);
    InorderRotated(Grow(c, t));
    InorderPainted(Far(c, c.sib), false);
    SeenIsInorder(c.up, f);
    assert Inorder(f) == Inorder(Grow(c, t));
    assert RedAtHole(c.up, f) by {
      hide NoRedRed, Balanced, BlackHeight, Inorder;
      Colours(c.sib);
      Colours(Far(c, c.sib));
      Colours(Far(c, f));
      Colours(Near(c, f));
      Colours(f);
    }
    PlugRedBlack(c.up, f);
  }

  /** Turning and filling leave nothing short. */
  lemma {:induction false} FillEnds(c: Ctx, t: Tree)
    requires ShortAtHole(c, t) && !IsRed(t) && !c.Top? && !IsRed(c.sib) && c.sib.Node?
    requires IsRed(c.sib.l) || IsRed(c.sib.r)
    ensures
      var d := Frame(c, c.up, c.red, Turned(c, c.sib));
      d.sib.Node? && !d.sib.red && IsRed(Far(d, d.sib)) &&
      ShortAtHole(Top, Plug(c.up, Filled(d, t))) && Seen(Top, Plug(c.up, Filled(d, t))) == Seen(c, t)
  {
    var d := Frame(c, c.up, c.red, Turned(c, c.sib));
    TurnedKeeps(c, t);
    FilledKeeps(d, t);
    assert Seen(d, t) == Seen(c, t);
  }

  /** What the program reads at the sibling of a hole. */
  lemma {:induction false} SiblingRead(m: Mem, s: Off, root: Off, c: Ctx, t: Tree)
    requires Focus(m, s, root, c, t) && !c.Top? && c.sib.Node?
    ensures c.x in m && c.sib.x in m && m[c.x].red == c.red && c.x != s && c.sib.x != s
    ensures (if c.InL? then m[c.x].right else m[c.x].left) == c.sib.x
    ensures m[c.sib.x].left == Rt(c.sib.l, s) && Rt(c.sib.l, s) in m && m[Rt(c.sib.l, s)].red == IsRed(c.sib.l)
    ensures m[c.sib.x].right == Rt(c.sib.r, s) && Rt(c.sib.r, s) in m && m[Rt(c.sib.r, s)].red == IsRed(c.sib.r)
  {
    FocusRead(m, s, root, c, t);
    FocusAcross(m, s, root, c, t);
    FocusLeft(m, s, root, Across(c, t), c.sib);
    FocusRight(m, s, root, Across(c, t), c.sib);
    FocusRead(m, s, root, Across(c, t), c.sib);
    hide Focus;
    var w := c.sib;
    FocusRead(m, s, root, InL(Across(c, t), w.x, w.red, w.r), w.l);
    FocusRead(m, s, root, InR(Across(c, t), w.x, w.red, w.l), w.r);
  }

  /** The last blackening of a deletion: it fills the shortage, or the shortage has
      reached the root. */
  lemma {:induction false} TempBlackened(m: Mem, s: Off, root: Off, c: Ctx, t: Tree)
    requires Focus(m, s, root, c, t) && ShortAtHole(c, t) && (c.Top? || IsRed(t))
    ensures Rt(t, s) in m
    ensures
      var n := m[Rt(t, s) := m[Rt(t, s)].(red := false)];
      var w := Plug(c, Blacken(t));
      Focus(n, s, root, Top, w) && RedBlack(w) && Inorder(w) == Seen(c, t) && Kept(m, n, s)
  {
    FocusRead(m, s, root, c, t);
    var n := m[Rt(t, s) := m[Rt(t, s)].(red := false)];
    if t.Leaf? {
      assert n == m;
    } else {
      PaintFocus(m, s, root, c, t, false);
      InorderPainted(t, false);
    }
    FocusTop(n, s, root, c, Blacken(t));
    PlugRedBlack(c, Blacken(t));
    SeenIsInorder(c, Blacken(t));
  }
}
