/** The shape of a red-black tree as seen by the pool: ghost trees of node offsets,
    one-hole contexts (the path from a node back to the root), and what it means for
    linked node records to represent them. */
module RbShape {
  import opened Seqs

  type Off = nat

  type uint64 = x: nat | x < 0x1_0000_0000_0000_0000

  /** The link part of a node record. */
  datatype Link = Link(left: Off, right: Off, parent: Off, red: bool)

  type Mem = map<Off, Link>

  datatype Tree = Leaf | Node(l: Tree, x: Off, red: bool, r: Tree)

  /** A tree with a hole: `InL` says that the hole is the left child of `x`. */
  datatype Ctx =
    | Top
    | InL(up: Ctx, x: Off, red: bool, sib: Tree)
    | InR(up: Ctx, x: Off, red: bool, sib: Tree)

  ghost function Plug(c: Ctx, t: Tree): Tree {
    match c
    case Top => t
    case InL(up, x, red, sib) => Plug(up, Node(t, x, red, sib))
    case InR(up, x, red, sib) => Plug(up, Node(sib, x, red, t))
  }

  /** The context `inner` continued by `outer` at its top. */
  ghost function Comp(inner: Ctx, outer: Ctx): Ctx {
    match inner
    case Top => outer
    case InL(up, x, red, sib) => InL(Comp(up, outer), x, red, sib)
    case InR(up, x, red, sib) => InR(Comp(up, outer), x, red, sib)
  }

  ghost function Inorder(t: Tree): seq<Off> {
    match t
    case Leaf => []
    case Node(l, x, _, r) => Inorder(l) + [x] + Inorder(r)
  }

  ghost function Before(c: Ctx): seq<Off> {
    match c
    case Top => []
    case InL(up, _, _, _) => Before(up)
    case InR(up, x, _, sib) => Before(up) + Inorder(sib) + [x]
  }

  ghost function After(c: Ctx): seq<Off> {
    match c
    case Top => []
    case InL(up, x, _, sib) => [x] + Inorder(sib) + After(up)
    case InR(up, _, _, _) => After(up)
  }

  lemma {:induction false} PlugComp(inner: Ctx, outer: Ctx, t: Tree)
    ensures Plug(Comp(inner, outer), t) == Plug(outer, Plug(inner, t))
  {
    match inner
    case Top =>
    case InL(up, x, red, sib) => PlugComp(up, outer, Node(t, x, red, sib));
    case InR(up, x, red, sib) => PlugComp(up, outer, Node(sib, x, red, t));
  }

  /** The subtree one step above the hole of `c` when the hole holds `t`. */
  ghost function Grow(c: Ctx, t: Tree): Tree
    requires !c.Top?
  {
    if c.InL? then Node(t, c.x, c.red, c.sib) else Node(c.sib, c.x, c.red, t)
  }

  /** The in-order sequence of the whole tree, seen from the subtree `t` in `c`. */
  ghost function Seen(c: Ctx, t: Tree): seq<Off> {
    Before(c) + Inorder(t) + After(c)
  }

  lemma {:induction false} Reassociate(a: seq<Off>, x: Off, b: seq<Off>, y: Off, d: seq<Off>)
    ensures (a + [x] + b) + [y] + d == a + [x] + (b + [y] + d)
  {
  }

  lemma {:induction false} SeenUp(c: Ctx, t: Tree)
    requires !c.Top?
    ensures Seen(c.up, Grow(c, t)) == Seen(c, t)
    ensures Plug(c, t) == Plug(c.up, Grow(c, t))
  {
    if c.InL? {
      assert Inorder(Grow(c, t)) == Inorder(t) + [c.x] + Inorder(c.sib) &&
        After(c) == [c.x] + Inorder(c.sib) + After(c.up);
    } else {
      assert Inorder(Grow(c, t)) == Inorder(c.sib) + [c.x] + Inorder(t) &&
        Before(c) == Before(c.up) + Inorder(c.sib) + [c.x];
    }
    hide Inorder, Before, After;
    Regroup(Before(c.up), Inorder(t), c.x, Inorder(c.sib), After(c.up));
    Regroup(Before(c.up), Inorder(c.sib), c.x, Inorder(t), After(c.up));
  }

  lemma {:induction false} Regroup(a: seq<Off>, b: seq<Off>, x: Off, d: seq<Off>, e: seq<Off>)
    ensures a + (b + [x] + d) + e == a + b + ([x] + d + e) == (a + b + [x]) + d + e
  {
  }

  lemma {:induction false} SeenIsInorder(c: Ctx, t: Tree)
    ensures Inorder(Plug(c, t)) == Seen(c, t)
  {
    if !c.Top? {
      SeenUp(c, t);
      SeenIsInorder(c.up, Grow(c, t));
    }
  }

  // ---------- offsets ----------

  ghost function Elems(t: Tree): set<Off> {
    match t
    case Leaf => {}
    case Node(l, x, _, r) => Elems(l) + {x} + Elems(r)
  }

  ghost function CElems(c: Ctx): set<Off> {
    match c
    case Top => {}
    case InL(up, x, _, sib) => CElems(up) + {x} + Elems(sib)
    case InR(up, x, _, sib) => CElems(up) + {x} + Elems(sib)
  }

  /** No offset occurs twice. */
  ghost predicate Distinct(t: Tree) {
    match t
    case Leaf => true
    case Node(l, x, _, r) =>
      x !in Elems(l) && x !in Elems(r) && Elems(l) !! Elems(r) && Distinct(l) && Distinct(r)
  }

  ghost predicate CDistinct(c: Ctx) {
    c.Top? ||
    (c.x !in CElems(c.up) && c.x !in Elems(c.sib) && CElems(c.up) !! Elems(c.sib) &&
     CDistinct(c.up) && Distinct(c.sib))
  }

  lemma {:induction false} ElemsPlug(c: Ctx, t: Tree)
    ensures Elems(Plug(c, t)) == CElems(c) + Elems(t)
  {
    if !c.Top? { ElemsPlug(c.up, Grow(c, t)); }
  }

  lemma {:induction false} InorderElems(t: Tree)
    ensures forall x :: x in Inorder(t) <==> x in Elems(t)
  {
    match t
    case Leaf =>
    case Node(l, x, _, r) => InorderElems(l); InorderElems(r);
  }

  lemma {:induction false} DistinctNoDup(t: Tree)
    requires Distinct(t)
    ensures NoDup(Inorder(t))
  {
    match t
    case Leaf =>
    case Node(l, x, _, r) =>
      DistinctNoDup(l); DistinctNoDup(r);
      InorderElems(l); InorderElems(r);
      var a, b := Inorder(l), Inorder(r);
      assert forall i :: 0 <= i < |a| ==> a[i] in a;
      assert forall i :: 0 <= i < |b| ==> b[i] in b;
  }

  // ---------- representation ----------

  /** The offset of the root of `t`; an empty tree is the sentinel. */
  ghost function Rt(t: Tree, s: Off): Off {
    if t.Leaf? then s else t.x
  }

  ghost predicate ParentIs(m: Mem, t: Tree, p: Off) {
    t.Node? ==> t.x in m && m[t.x].parent == p
  }

  /** The records below and including `t` are linked as `t`; the parent field of the
      root of `t` is not constrained. */
  ghost predicate Rep(m: Mem, s: Off, t: Tree) {
    match t
    case Leaf => true
    case Node(l, x, red, r) =>
      x != s && x in m && m[x].red == red && m[x].left == Rt(l, s) && m[x].right == Rt(r, s) &&
      ParentIs(m, l, x) && ParentIs(m, r, x) && Rep(m, s, l) && Rep(m, s, r)
  }

  /** The frame record of a context links to offset `o` in its hole. */
  ghost predicate FrameOk(m: Mem, s: Off, c: Ctx, o: Off)
    requires !c.Top?
  {
    c.x != s && c.x in m && m[c.x].red == c.red &&
    (if c.InL? then m[c.x].left == o && m[c.x].right == Rt(c.sib, s)
               else m[c.x].right == o && m[c.x].left == Rt(c.sib, s)) &&
    ParentIs(m, c.sib, c.x) && (c.up.Top? || m[c.x].parent == c.up.x)
  }

  /** The records of the context `c` are linked as `c` around a hole holding `o`. */
  ghost predicate CRep(m: Mem, s: Off, c: Ctx, o: Off, root: Off) {
    if c.Top? then root == o
    else FrameOk(m, s, c, o) && Rep(m, s, c.sib) && CRep(m, s, c.up, c.x, root)
  }

  /** The tree in memory is `Plug(c, t)`, seen from `t`. The parent field of the root
      record is unconstrained, and so is the one of the sentinel. */
  ghost predicate Focus(m: Mem, s: Off, root: Off, c: Ctx, t: Tree) {
    s in m && !m[s].red && Rep(m, s, t) && CRep(m, s, c, Rt(t, s), root) &&
    Distinct(t) && CDistinct(c) && Elems(t) !! CElems(c) &&
    (!c.Top? ==> ParentIs(m, t, c.x))
  }

  /** The records of `t` have the same links and colours in both memories, except
      perhaps for the parent field of the root. */
  ghost predicate SameBelow(m: Mem, n: Mem, t: Tree) {
    forall x :: x in Elems(t) ==>
      x in m && x in n && n[x].left == m[x].left && n[x].right == m[x].right &&
      n[x].red == m[x].red && (x == t.x || n[x].parent == m[x].parent)
  }

  lemma {:induction false} RepFrame(m: Mem, n: Mem, s: Off, t: Tree)
    requires Rep(m, s, t) && Distinct(t) && SameBelow(m, n, t)
    ensures Rep(n, s, t)
  {
    match t
    case Leaf =>
    case Node(l, x, red, r) =>
      assert l.Node? ==> l.x in Elems(l);
      assert r.Node? ==> r.x in Elems(r);
      RepFrame(m, n, s, l);
      RepFrame(m, n, s, r);
  }

  lemma {:induction false} RepIn(m: Mem, s: Off, t: Tree)
    requires Rep(m, s, t)
    ensures Elems(t) <= m.Keys && s !in Elems(t)
  {
    match t
    case Leaf =>
    case Node(l, x, red, r) => RepIn(m, s, l); RepIn(m, s, r);
  }

  lemma {:induction false} CRepIn(m: Mem, s: Off, c: Ctx, o: Off, root: Off)
    requires CRep(m, s, c, o, root)
    ensures CElems(c) <= m.Keys && s !in CElems(c)
    ensures !c.Top? ==> root in CElems(c)
  {
    if !c.Top? {
      CRepIn(m, s, c.up, c.x, root);
      RepIn(m, s, c.sib);
    }
  }

  ghost predicate SameOn(m: Mem, n: Mem, xs: set<Off>) {
    forall x :: x in xs ==>
      x in m && x in n && n[x].left == m[x].left && n[x].right == m[x].right &&
      n[x].red == m[x].red && n[x].parent == m[x].parent
  }

  lemma {:induction false} CRepFrame(m: Mem, n: Mem, s: Off, c: Ctx, o: Off, root: Off)
    requires CRep(m, s, c, o, root) && CDistinct(c) && SameOn(m, n, CElems(c))
    ensures CRep(n, s, c, o, root)
  {
    if !c.Top? {
      assert c.sib.Node? ==> c.sib.x in Elems(c.sib);
      CRepFrame(m, n, s, c.up, c.x, root);
      RepFrame(m, n, s, c.sib);
    }
  }

  /** Storing `o'` in the hole of `c`: either the root changes, or one child field of
      the frame record. */
  ghost predicate Relinked(m: Mem, n: Mem, c: Ctx, root: Off, root': Off, o': Off) {
    if c.Top? then root' == o'
    else
      root' == root && c.x in m && c.x in n && SameOn(m, n, CElems(c) - {c.x}) &&
      n[c.x].red == m[c.x].red && n[c.x].parent == m[c.x].parent &&
      (if c.InL? then n[c.x].left == o' && n[c.x].right == m[c.x].right
                 else n[c.x].right == o' && n[c.x].left == m[c.x].left)
  }

  lemma {:induction false} CRepRelink(m: Mem, n: Mem, s: Off, c: Ctx, o: Off, root: Off, root': Off, o': Off)
    requires CRep(m, s, c, o, root) && CDistinct(c) && Relinked(m, n, c, root, root', o')
    ensures CRep(n, s, c, o', root')
  {
    if !c.Top? {
      assert c.sib.Node? ==> c.sib.x in Elems(c.sib);
      CRepFrame(m, n, s, c.up, c.x, root);
      RepFrame(m, n, s, c.sib);
    }
  }

  // ---------- moving the focus ----------

  lemma {:induction false} FocusUp(m: Mem, s: Off, root: Off, c: Ctx, t: Tree)
    requires Focus(m, s, root, c, t) && !c.Top?
    ensures Focus(m, s, root, c.up, Grow(c, t))
  {
  }

  lemma {:induction false} FocusLeft(m: Mem, s: Off, root: Off, c: Ctx, t: Tree)
    requires Focus(m, s, root, c, t) && t.Node?
    ensures Focus(m, s, root, InL(c, t.x, t.red, t.r), t.l)
  {
  }

  lemma {:induction false} FocusRight(m: Mem, s: Off, root: Off, c: Ctx, t: Tree)
    requires Focus(m, s, root, c, t) && t.Node?
    ensures Focus(m, s, root, InR(c, t.x, t.red, t.l), t.r)
  {
  }

  /** The hole of the sibling. */
  ghost function Across(c: Ctx, t: Tree): Ctx
    requires !c.Top?
  {
    if c.InL? then InR(c.up, c.x, c.red, t) else InL(c.up, c.x, c.red, t)
  }

  lemma {:induction false} FocusAcross(m: Mem, s: Off, root: Off, c: Ctx, t: Tree)
    requires Focus(m, s, root, c, t) && !c.Top?
    ensures Focus(m, s, root, Across(c, t), c.sib)
    ensures forall t' :: Grow(Across(c, t), t') == Grow(c.(sib := t'), t)
  {
  }

  lemma {:induction false} FocusOut(m: Mem, s: Off, root: Off, inner: Ctx, outer: Ctx, t: Tree)
    requires Focus(m, s, root, Comp(inner, outer), t)
    ensures Focus(m, s, root, outer, Plug(inner, t))
    decreases inner
  {
    match inner
    case Top =>
    case InL(up, x, red, sib) =>
      FocusUp(m, s, root, Comp(inner, outer), t);
      FocusOut(m, s, root, up, outer, Node(t, x, red, sib));
    case InR(up, x, red, sib) =>
      FocusUp(m, s, root, Comp(inner, outer), t);
      FocusOut(m, s, root, up, outer, Node(sib, x, red, t));
  }

  lemma {:induction false} FocusIn(m: Mem, s: Off, root: Off, inner: Ctx, outer: Ctx, t: Tree)
    requires Focus(m, s, root, outer, Plug(inner, t))
    ensures Focus(m, s, root, Comp(inner, outer), t)
    decreases inner
  {
    match inner
    case Top =>
    case InL(up, x, red, sib) =>
      FocusIn(m, s, root, up, outer, Node(t, x, red, sib));
      FocusLeft(m, s, root, Comp(up, outer), Node(t, x, red, sib));
    case InR(up, x, red, sib) =>
      FocusIn(m, s, root, up, outer, Node(sib, x, red, t));
      FocusRight(m, s, root, Comp(up, outer), Node(sib, x, red, t));
  }

  lemma {:induction false} CompTop(c: Ctx)
    ensures Comp(c, Top) == c
  {
    if !c.Top? { CompTop(c.up); }
  }

  lemma {:induction false} FocusTop(m: Mem, s: Off, root: Off, c: Ctx, t: Tree)
    requires Focus(m, s, root, c, t)
    ensures Focus(m, s, root, Top, Plug(c, t))
  {
    CompTop(c);
    FocusOut(m, s, root, c, Top, t);
  }

  /** What the program reads at a node in focus. */
  lemma {:induction false} FocusRead(m: Mem, s: Off, root: Off, c: Ctx, t: Tree)
    requires Focus(m, s, root, c, t)
    ensures s in m && !m[s].red
    ensures Rt(t, s) in m && m[Rt(t, s)].red == (t.Node? && t.red)
    ensures t.Node? ==> t.x != s && m[t.x].left == Rt(t.l, s) && m[t.x].right == Rt(t.r, s)
    ensures Rt(t, s) == root <==> c.Top?
    ensures t.Node? && !c.Top? ==> m[t.x].parent == c.x
    ensures !c.Top? ==>
      c.x in m && c.x != s && m[c.x].red == c.red &&
      m[c.x].left == (if c.InL? then Rt(t, s) else Rt(c.sib, s)) &&
      m[c.x].right == (if c.InR? then Rt(t, s) else Rt(c.sib, s))
    ensures !c.Top? && !(t.Leaf? && c.sib.Leaf?) ==> Rt(t, s) != Rt(c.sib, s)
    ensures !c.Top? && !c.up.Top? ==> m[c.x].parent == c.up.x
  {
    CRepIn(m, s, c, Rt(t, s), root);
    RepIn(m, s, t);
  }

  /** Replacing the subtree in focus: the new subtree is represented in the new memory,
      its root is linked from the hole, and the rest of the context is untouched. */
  lemma {:induction false} FocusGraft(m: Mem, n: Mem, s: Off, root: Off, root': Off, c: Ctx, t: Tree, t': Tree)
    requires Focus(m, s, root, c, t)
    requires Relinked(m, n, c, root, root', Rt(t', s))
    requires s in n && !n[s].red
    requires Rep(n, s, t') && Distinct(t') && Elems(t') !! CElems(c)
    requires !c.Top? ==> ParentIs(n, t', c.x)
    ensures Focus(n, s, root', c, t')
  {
    CRepRelink(m, n, s, c, Rt(t, s), root, root', Rt(t', s));
  }
}
