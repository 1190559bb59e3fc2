/** Colours and black heights: what makes a tree a red-black tree, stated for trees and
    for trees with a hole, and the height bound that follows. */
module RbBalance {
  import opened RbShape
  import opened Powers

  ghost predicate IsRed(t: Tree) {
    t.Node? && t.red
  }

  /** No red node has a red child. */
  ghost predicate NoRedRed(t: Tree) {
    match t
    case Leaf => true
    case Node(l, _, red, r) => (red ==> !IsRed(l) && !IsRed(r)) && NoRedRed(l) && NoRedRed(r)
  }

  ghost function BlackHeight(t: Tree): nat {
    match t
    case Leaf => 0
    case Node(l, _, red, _) => BlackHeight(l) + if red then 0 else 1
  }

  /** Every way down meets the same number of black nodes. */
  ghost predicate Balanced(t: Tree) {
    match t
    case Leaf => true
    case Node(l, _, _, r) => Balanced(l) && Balanced(r) && BlackHeight(l) == BlackHeight(r)
  }

  ghost predicate RedBlack(t: Tree) {
    !IsRed(t) && NoRedRed(t) && Balanced(t)
  }

  /** The context is balanced when its hole holds a tree of black height `n`. */
  ghost predicate CBalanced(c: Ctx, n: nat) {
    c.Top? ||
    (Balanced(c.sib) && BlackHeight(c.sib) == n && CBalanced(c.up, n + if c.red then 0 else 1))
  }

  /** No red-red edge and no red root above the hole. */
  ghost predicate CNoRedRed(c: Ctx) {
    c.Top? ||
    (NoRedRed(c.sib) && (c.red ==> !IsRed(c.sib) && !c.up.Top? && !c.up.red) && CNoRedRed(c.up))
  }

  ghost predicate RedParent(c: Ctx) {
    !c.Top? && c.red
  }

  ghost function Blacken(t: Tree): Tree {
    if t.Leaf? then t else t.(red := false)
  }

  lemma {:induction false} PlugRedBlack(c: Ctx, t: Tree)
    requires CNoRedRed(c) && CBalanced(c, BlackHeight(t)) && NoRedRed(t) && Balanced(t)
    requires IsRed(t) ==> !c.Top? && !c.red
    ensures RedBlack(Plug(c, t))
  {
    match c
    case Top =>
    case InL(up, x, red, sib) => PlugRedBlack(up, Node(t, x, red, sib));
    case InR(up, x, red, sib) => PlugRedBlack(up, Node(sib, x, red, t));
  }

  /** The tree in focus fits the context except that both may be red where they meet. */
  ghost predicate RedAtHole(c: Ctx, t: Tree) {
    NoRedRed(t) && Balanced(t) && CBalanced(c, BlackHeight(t)) && CNoRedRed(c)
  }

  /** The tree in focus is one black node short of what the context expects. */
  ghost predicate ShortAtHole(c: Ctx, t: Tree) {
    NoRedRed(Blacken(t)) && Balanced(t) && CBalanced(c, BlackHeight(t) + 1) && CNoRedRed(c)
  }

  /** The converse: every subtree of a red-black tree is balanced and sits in a
      balanced context. */
  lemma {:induction false} RedBlackPlug(c: Ctx, t: Tree)
    requires NoRedRed(Plug(c, t)) && Balanced(Plug(c, t)) && !IsRed(Plug(c, t))
    ensures CNoRedRed(c) && CBalanced(c, BlackHeight(t)) && NoRedRed(t) && Balanced(t)
    ensures IsRed(t) ==> !c.Top? && !c.red
  {
    match c
    case Top =>
    case InL(up, x, red, sib) => RedBlackPlug(up, Node(t, x, red, sib));
    case InR(up, x, red, sib) => RedBlackPlug(up, Node(sib, x, red, t));
  }

  // ---------- height ----------

  ghost function Height(t: Tree): nat {
    match t
    case Leaf => 0
    case Node(l, _, _, r) => 1 + if Height(l) > Height(r) then Height(l) else Height(r)
  }

  lemma {:induction false} HeightVsBlackHeight(t: Tree)
    requires NoRedRed(t) && Balanced(t)
    ensures Height(t) <= 2 * BlackHeight(t) + if IsRed(t) then 1 else 0
  {
    match t
    case Leaf =>
    case Node(l, _, _, r) => HeightVsBlackHeight(l); HeightVsBlackHeight(r);
  }

  lemma {:induction false} SizeVsBlackHeight(t: Tree)
    requires Balanced(t)
    ensures Pow2(BlackHeight(t)) <= |Inorder(t)| + 1
  {
    match t
    case Leaf =>
    case Node(l, _, _, r) => SizeVsBlackHeight(l); SizeVsBlackHeight(r);
  }

  lemma {:induction false} SquareMono(a: nat, b: nat)
    requires a <= b
    ensures a * a <= b * b
  {
    assert a * a + a * (b - a) + b * (b - a) == b * b;
  }

  /** Height is at most twice the binary logarithm of the size plus one. */
  lemma {:induction false} HeightBound(t: Tree)
    requires RedBlack(t)
    ensures Pow2(Height(t)) <= (|Inorder(t)| + 1) * (|Inorder(t)| + 1)
  {
    var b, n := BlackHeight(t), |Inorder(t)| + 1;
    HeightVsBlackHeight(t);
    SizeVsBlackHeight(t);
    Pow2Mono(Height(t), b + b);
    Pow2Add(b, b);
    SquareMono(Pow2(b), n);
  }

  /** The number of frames above a node, the steps of a descent that reaches it. */
  ghost function Depth(c: Ctx): nat {
    if c.Top? then 0 else 1 + Depth(c.up)
  }

  lemma {:induction false} DepthBound(c: Ctx, t: Tree)
    ensures Depth(c) + Height(t) <= Height(Plug(c, t))
  {
    match c
    case Top =>
    case InL(up, x, red, sib) => DepthBound(up, Node(t, x, red, sib));
    case InR(up, x, red, sib) => DepthBound(up, Node(sib, x, red, t));
  }

  /** Any descent from the root of a red-black tree of n nodes takes at most
      2*log2(n+1) steps. */
  lemma {:induction false} DescentBound(c: Ctx, t: Tree)
    requires RedBlack(Plug(c, t))
    ensures var n := |Inorder(Plug(c, t))| + 1; Pow2(Depth(c)) <= n * n
  {
    HeightBound(Plug(c, t));
    DepthBound(c, t);
    Pow2Mono(Depth(c), Height(Plug(c, t)));
  }
}
