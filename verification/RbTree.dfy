/** The red-black tree (src/mps_rbtree.c, src/mps_rbtree.h). */
module RbTree {
  import opened Seqs
  import opened RbShape
  import opened Powers
  import opened RbBalance
  import opened RbMoves
  import opened RbFixup
  import opened RbSplice
  import opened RbOrder
  import opened NgxString

  /** One comparison narrows the position of `p` to one side of the node in focus. */
  lemma {:induction false} SplitStep(ty: InsertType, d: map<Off, Payload>, p: Payload, c: Ctx, t: Tree, k: int)
    requires t.Node? && Splits(ty, d, Seen(c, t), p, k)
    ensures t.x in d
    ensures GoesLeft(ty, p, d[t.x]) <==> k <= |Before(c)| + |Inorder(t.l)|
  {
    assert Seen(c, t)[|Before(c)| + |Inorder(t.l)|] == t.x;
  }

  /** A red leaf hung in a red-black tree: balance and sequence. */
  lemma {:induction false} RedLeafFits(c: Ctx, node: Off)
    requires RedBlack(Plug(c, Leaf))
    ensures RedAtHole(c, Node(Leaf, node, true, Leaf))
    ensures Seen(c, Node(Leaf, node, true, Leaf)) == Before(c) + [node] + After(c)
    ensures Seen(c, Leaf) == Before(c) + After(c)
  {
    RedBlackPlug(c, Leaf);
    assert Inorder(Node(Leaf, node, true, Leaf)) == [node];
  }

  lemma {:induction false} InsertedElems(s: seq<Off>, i: nat, node: Off, t: Tree, u: Tree)
    requires i <= |s| && Inorder(t) == Inserted(s, i, node) && Inorder(u) == s
    ensures Elems(t) == Elems(u) + {node}
  {
    InorderElems(t);
    InorderElems(u);
    hide Inorder, Elems;
    assert forall x :: x in s <==> x in s[..i] || x in s[i..];
  }

  lemma {:induction false} SeenAt(c: Ctx, t: Tree)
    requires t.Node?
    ensures Pos(c, t) < |Seen(c, t)| && Seen(c, t)[Pos(c, t)] == t.x
    ensures |Inorder(t)| == |Inorder(t.l)| + 1 + |Inorder(t.r)|
  {
  }

  lemma {:induction false} NextSeen(c: Ctx, t: Tree)
    requires t.Node? && t.r.Node?
    ensures Pos(c, t) + 1 < |Seen(c, t)| && Seen(c, t)[Pos(c, t) + 1] == Inorder(t.r)[0]
  {
  }

  /** The key `p`, if it is in the tree, is in the subtree in focus. */
  ghost predicate Narrowed(d: map<Off, Payload>, c: Ctx, t: Tree, p: Payload) {
    forall j :: 0 <= j < |Seen(c, t)| ==>
      Seen(c, t)[j] in d && (d[Seen(c, t)[j]] == p ==> |Before(c)| <= j < |Before(c)| + |Inorder(t)|)
  }

  lemma {:induction false} NarrowLeft(d: map<Off, Payload>, c: Ctx, t: Tree, p: Payload)
    requires t.Node? && Ascending(d, Seen(c, t)) && Narrowed(d, c, t, p) && t.x in d && GoesLeft(Luadict, p, d[t.x])
    ensures Narrowed(d, InL(c, t.x, t.red, t.r), t.l, p)
  {
    SeenAt(c, t);
    SeenUp(InL(c, t.x, t.red, t.r), t.l);
    LuadictOrder(p, d[t.x], p);
    assert forall j :: Pos(c, t) < j < |Seen(c, t)| ==> GoesLeft(Luadict, d[t.x], d[Seen(c, t)[j]]);
  }

  lemma {:induction false} NarrowRight(d: map<Off, Payload>, c: Ctx, t: Tree, p: Payload)
    requires t.Node? && Ascending(d, Seen(c, t)) && Narrowed(d, c, t, p) && t.x in d && GoesLeft(Luadict, d[t.x], p)
    ensures Narrowed(d, InR(c, t.x, t.red, t.l), t.r, p)
  {
    SeenAt(c, t);
    SeenUp(InR(c, t.x, t.red, t.l), t.r);
    LuadictOrder(p, d[t.x], p);
    assert forall j :: 0 <= j < Pos(c, t) ==> GoesLeft(Luadict, d[Seen(c, t)[j]], d[t.x]);
  }

  /** The three-way comparison of a lookup is the order of the tree. */
  lemma {:induction false} SearchCompares(p: Payload, q: Payload)
    ensures p == q <==> p.key == q.key && Memn2cmp(p.name, q.name) == 0
    ensures GoesLeft(Luadict, p, q) <==> p.key < q.key || (p.key == q.key && Memn2cmp(p.name, q.name) < 0)
    ensures p == q || GoesLeft(Luadict, p, q) || GoesLeft(Luadict, q, p)
  {
    Memn2cmpTotalOrder(p.name, q.name, q.name);
    LuadictOrder(p, q, q);
  }

  /** The subtree has run empty: the key is not in the tree. */
  lemma {:induction false} NarrowedAway(d: map<Off, Payload>, c: Ctx, t: Tree, p: Payload)
    requires Narrowed(d, c, Leaf, p) && Plug(c, Leaf) == t
    ensures forall x :: x in Elems(t) ==> x in d && d[x] != p
  {
    SeenIsInorder(c, Leaf);
    InorderElems(t);
    assert forall j :: 0 <= j < |Seen(c, Leaf)| ==> Seen(c, Leaf)[j] in d && d[Seen(c, Leaf)[j]] != p;
  }

  class RbTree {
    /** The records of the pool by offset. */
    var links: Mem
    var payload: map<Off, Payload>
    var root: Off
    const sentinel: Off
    const insert: InsertType
    ghost var tree: Tree

    /** mps_rbtree_init over a pool that holds a record for the sentinel. */
    constructor (mem: Mem, sentinel: Off, insert: InsertType)
      requires sentinel in mem
      ensures Valid() && tree == Leaf && this.sentinel == sentinel && this.insert == insert
      ensures links.Keys == mem.Keys
    {
      links := mem[sentinel := mem[sentinel].(red := false)];
      payload := map[];
      root := sentinel;
      this.sentinel := sentinel;
      this.insert := insert;
      tree := Leaf;
    }

    /** The tree in memory, seen from the subtree `t` in the context `c`. */
    ghost predicate At(c: Ctx, t: Tree)
      reads this`links, this`root
    {
      Focus(links, sentinel, root, c, t)
    }

    ghost predicate Valid()
      reads this
    {
      At(Top, tree) && RedBlack(tree) && Elems(tree) <= payload.Keys
    }

    /** A new chunk of the pool becomes a record outside the tree: its link fields hold
        whatever was there, its key fields are written. */
    method Place(node: Off, garbage: Link, p: Payload)
      requires Valid() && node != sentinel && node !in Elems(tree)
      modifies this`links, this`payload
      ensures Valid() && node in links && payload == old(payload)[node := p]
    {
      UnfoldFocus(links, sentinel, root, Top, tree);
      links := links[node := garbage];
      payload := payload[node := p];
      RepFrame(old(links), links, sentinel, tree);
    }

    /** The key string of a node is written; the shape of the tree does not depend on it. */
    method SetName(node: Off, name: seq<byte>)
      requires Valid() && node in payload
      modifies this`payload
      ensures Valid() && payload == old(payload)[node := old(payload)[node].(name := name)]
    {
      payload := payload[node := payload[node].(name := name)];
    }

    /** ngx_rbt_red and ngx_rbt_black on the node in focus. */
    method Paint(node: Off, red: bool, ghost c: Ctx, ghost t: Tree)
      requires At(c, t) && t.Node? && t.x == node
      modifies this`links
      ensures At(c, t.(red := red)) && Kept(old(links), links, sentinel)
    {
      FocusRead(links, sentinel, root, c, t);
      PaintFocus(links, sentinel, root, c, t, red);
      links := links[node := links[node].(red := red)];
    }

    /** A child, unless it is the sentinel, is told its new parent. */
    method Adopt(child: Off, parent: Off)
      requires child in links
      modifies this`links
      ensures links.Keys == old(links).Keys
      ensures child != sentinel ==> links[child] == old(links)[child].(parent := parent)
      ensures forall z {:trigger links[z]} ::
        z in links && (z != child || child == sentinel) ==> links[z] == old(links)[z]
    {
      if child != sentinel {
        links := links[child := links[child].(parent := parent)];
      }
    }

    /** `temp` hangs where `node` hangs: at the root, or from the parent of `node`. */
    method ReplaceChild(node: Off, temp: Off, ghost c: Ctx)
      requires node in links && (c.Top? <==> node == root)
      requires !c.Top? ==> CReads(links, sentinel, c, node)
      modifies this`links, this`root
      ensures links.Keys == old(links).Keys && HoleSet(old(links), links, c, old(root), root, temp)
      ensures forall z {:trigger links[z]} :: z in links && (c.Top? || z != c.x) ==> links[z] == old(links)[z]
    {
      if node == root {
        root := temp;
      } else {
        var nodeParent := links[node].parent;
        if node == links[nodeParent].left {
          links := links[nodeParent := links[nodeParent].(left := temp)];
        } else {
          links := links[nodeParent := links[nodeParent].(right := temp)];
        }
      }
    }

    /** The inner child of `temp`, the right child of `node`, becomes the right child of `node`. */
    method DetachRight(node: Off, temp: Off)
      requires node in links && temp in links && node != temp && links[temp].left in links
      requires links[temp].left !in {node, temp}
      modifies this`links
      ensures links.Keys == old(links).Keys
      ensures links[node] == old(links)[node].(right := old(links)[temp].left)
      ensures links[temp] == old(links)[temp].(parent := old(links)[node].parent)
      ensures
        var b := old(links)[temp].left;
        (b != sentinel ==> links[b] == old(links)[b].(parent := node)) &&
        forall z {:trigger links[z]} ::
          z in links && z != node && z != temp && (z != b || b == sentinel) ==> links[z] == old(links)[z]
    {
      links := links[node := links[node].(right := links[temp].left)];
      Adopt(links[temp].left, node);
      links := links[temp := links[temp].(parent := links[node].parent)];
    }

    /** `node` becomes the left child of `temp`. */
    method AttachLeft(node: Off, temp: Off)
      requires node in links && temp in links && node != temp
      modifies this`links
      ensures links.Keys == old(links).Keys
      ensures links[temp] == old(links)[temp].(left := node) && links[node] == old(links)[node].(parent := temp)
      ensures forall z {:trigger links[z]} :: z in links && z != node && z != temp ==> links[z] == old(links)[z]
    {
      links := links[temp := links[temp].(left := node)];
      links := links[node := links[node].(parent := temp)];
    }

    /** The links of a rotation. */
    method LeftTurn(node: Off, ghost c: Ctx, ghost t: Tree)
      requires At(c, t) && t.Node? && t.x == node && t.r.Node?
      modifies this`links, this`root
      ensures t.x in old(links) && t.r.x in old(links)
      ensures LeftRotated(old(links), links, old(root), root, c, t)
      ensures forall z {:trigger links[z]} ::
        z in links && z != t.x && z != t.r.x && z != Rt(t.r.l, sentinel) && (c.Top? || z != c.x) ==>
        links[z] == old(links)[z]
    {
      LeftRotateReads(links, sentinel, root, c, t);
      hide Focus;
      var temp := links[node].right;
      DetachRight(node, temp);
      ReplaceChild(node, temp, c);
      AttachLeft(node, temp);
    }

    method LeftRotate(node: Off, ghost c: Ctx, ghost t: Tree)
      requires At(c, t) && t.Node? && t.x == node && t.r.Node?
      modifies this`links, this`root
      ensures At(c, RotatedLeft(t)) && Kept(old(links), links, sentinel)
      ensures forall z {:trigger links[z]} ::
        z in links && z != t.x && z != t.r.x && z != Rt(t.r.l, sentinel) && (c.Top? || z != c.x) ==>
        links[z] == old(links)[z]
    {
      hide Focus, LeftRotated;
      LeftTurn(node, c, t);
      LeftRotateFocus(old(links), links, sentinel, old(root), root, c, t);
    }

    /** The inner child of `temp`, the left child of `node`, becomes the left child of `node`. */
    method DetachLeft(node: Off, temp: Off)
      requires node in links && temp in links && node != temp && links[temp].right in links
      requires links[temp].right !in {node, temp}
      modifies this`links
      ensures links.Keys == old(links).Keys
      ensures links[node] == old(links)[node].(left := old(links)[temp].right)
      ensures links[temp] == old(links)[temp].(parent := old(links)[node].parent)
      ensures
        var b := old(links)[temp].right;
        (b != sentinel ==> links[b] == old(links)[b].(parent := node)) &&
        forall z {:trigger links[z]} ::
          z in links && z != node && z != temp && (z != b || b == sentinel) ==> links[z] == old(links)[z]
    {
      links := links[node := links[node].(left := links[temp].right)];
      Adopt(links[temp].right, node);
      links := links[temp := links[temp].(parent := links[node].parent)];
    }

    /** `node` becomes the right child of `temp`. */
    method AttachRight(node: Off, temp: Off)
      requires node in links && temp in links && node != temp
      modifies this`links
      ensures links.Keys == old(links).Keys
      ensures links[temp] == old(links)[temp].(right := node) && links[node] == old(links)[node].(parent := temp)
      ensures forall z {:trigger links[z]} :: z in links && z != node && z != temp ==> links[z] == old(links)[z]
    {
      links := links[temp := links[temp].(right := node)];
      links := links[node := links[node].(parent := temp)];
    }

    /** The links of a rotation. */
    method RightTurn(node: Off, ghost c: Ctx, ghost t: Tree)
      requires At(c, t) && t.Node? && t.x == node && t.l.Node?
      modifies this`links, this`root
      ensures t.x in old(links) && t.l.x in old(links)
      ensures RightRotated(old(links), links, old(root), root, c, t)
      ensures forall z {:trigger links[z]} ::
        z in links && z != t.x && z != t.l.x && z != Rt(t.l.r, sentinel) && (c.Top? || z != c.x) ==>
        links[z] == old(links)[z]
    {
      RightRotateReads(links, sentinel, root, c, t);
      hide Focus;
      var temp := links[node].left;
      DetachLeft(node, temp);
      ReplaceChild(node, temp, c);
      AttachRight(node, temp);
    }

    method RightRotate(node: Off, ghost c: Ctx, ghost t: Tree)
      requires At(c, t) && t.Node? && t.x == node && t.l.Node?
      modifies this`links, this`root
      ensures At(c, RotatedRight(t)) && Kept(old(links), links, sentinel)
      ensures forall z {:trigger links[z]} ::
        z in links && z != t.x && z != t.l.x && z != Rt(t.l.r, sentinel) && (c.Top? || z != c.x) ==>
        links[z] == old(links)[z]
    {
      hide Focus, RightRotated;
      RightTurn(node, c, t);
      RightRotateFocus(old(links), links, sentinel, old(root), root, c, t);
    }

    /** The descents of mps_rbtree_insert_value, mps_rbtree_insert_timer_value and
        mps_shdict_rbtree_insert_value, which differ in the comparator only: the node
        under which `node` goes, and on which side. */
    method Descend(first: Off, node: Off) returns (temp: Off, goLeft: bool, ghost c: Ctx)
      requires At(Top, tree) && Elems(tree) <= payload.Keys && tree.Node? && first == root
      requires node in payload
      ensures !c.Top? && c.x == temp && (c.InL? <==> goLeft) && At(c, Leaf) && Plug(c, Leaf) == tree
      ensures forall k :: Splits(insert, payload, Inorder(tree), payload[node], k) ==> k == |Before(c)|
    {
      c := Top;
      ghost var t := tree;
      temp := first;
      FocusRead(links, sentinel, root, c, t);
      hide Focus;
      while true
        invariant At(c, t) && t.Node? && t.x == temp && Plug(c, t) == tree
        invariant forall k :: Splits(insert, payload, Inorder(tree), payload[node], k) ==>
          |Before(c)| <= k <= |Before(c)| + |Inorder(t)|
        decreases t
      {
        FocusRead(links, sentinel, root, c, t);
        FocusLeft(links, sentinel, root, c, t);
        FocusRight(links, sentinel, root, c, t);
        ElemsPlug(c, t);
        SeenIsInorder(c, t);
        forall k | Splits(insert, payload, Inorder(tree), payload[node], k) {
          SplitStep(insert, payload, payload[node], c, t, k);
        }
        goLeft := GoesLeft(insert, payload[node], payload[temp]);
        var next := if goLeft then links[temp].left else links[temp].right;
        if goLeft { c, t := InL(c, t.x, t.red, t.r), t.l; } else { c, t := InR(c, t.x, t.red, t.l), t.r; }
        FocusRead(links, sentinel, root, c, t);
        if next == sentinel {
          break;
        }
        temp := next;
      }
    }

    method InsertValue(first: Off, node: Off) returns (ghost c: Ctx)
      requires At(Top, tree) && Elems(tree) <= payload.Keys && tree.Node? && first == root
      requires node in links && node in payload && node != sentinel && node !in Elems(tree)
      modifies this`links
      ensures !c.Top? && At(c, Node(Leaf, node, true, Leaf)) && Plug(c, Leaf) == tree
      ensures Kept(old(links), links, sentinel)
      ensures forall k :: Splits(insert, payload, Inorder(tree), payload[node], k) ==> k == |Before(c)|
    {
      hide Focus, Splits;
      var temp, goLeft;
      temp, goLeft, c := Descend(first, node);
      FocusRead(links, sentinel, root, c, Leaf);
      ElemsPlug(c, Leaf);
      if goLeft {
        links := links[temp := links[temp].(left := node)];
      } else {
        links := links[temp := links[temp].(right := node)];
      }
      links := links[node := Link(sentinel, sentinel, temp, true)];
      AttachFocus(old(links), links, sentinel, root, c, node);
    }

    /** The uncle is red: parent and uncle become black, the grandparent red. */
    method Recolor(parent: Off, uncle: Off, grand: Off, ghost c: Ctx, ghost t: Tree)
      requires At(c, t) && RedParent(c) && !c.up.Top? && c.up.sib.Node?
      requires parent == c.x && uncle == c.up.sib.x && grand == c.up.x
      modifies this`links
      ensures At(c.up.up, Recolored(c, t)) && Kept(old(links), links, sentinel)
    {
      hide Focus;
      FocusUp(links, sentinel, root, c, t);
      Paint(parent, false, c.up, Grow(c, t));
      ghost var p := Grow(c.(red := false), t);
      FocusAcross(links, sentinel, root, c.up, p);
      Paint(uncle, false, Across(c.up, p), c.up.sib);
      FocusUp(links, sentinel, root, Across(c.up, p), c.up.sib.(red := false));
      Paint(grand, true, c.up.up, Grow(c.up.(sib := c.up.sib.(red := false)), p));
    }

    /** The uncle is black, the parent a left child: turn the red pair outward, then
        rotate the grandparent away. */
    method RotateOutLeft(node: Off, parent: Off, grand: Off, ghost c: Ctx, ghost t: Tree) returns (next: Off)
      requires At(c, t) && t.Node? && RedParent(c) && c.up.InL?
      requires node == t.x && parent == c.x && grand == c.up.x
      modifies this`links, this`root
      ensures At(OuterCtx(c, t), Outer(c, t)) && Kept(old(links), links, sentinel)
      ensures Outer(c, t).Node? && next == Outer(c, t).x
    {
      FocusRead(links, sentinel, root, c, t);
      FocusUp(links, sentinel, root, c, t);
      hide Focus;
      next := node;
      var parent', grand' := parent, grand;
      if node == links[parent].right {
        next := parent;
        LeftRotate(next, c.up, Grow(c, t));
        FocusLeft(links, sentinel, root, c.up, Outward(c, t));
        FocusRead(links, sentinel, root, InL(c.up, Outward(c, t).x, Outward(c, t).red, Outward(c, t).r),
                  Outward(c, t).l);
        parent' := links[next].parent;
        grand' := links[parent'].parent;
      }
      ghost var q := Outward(c, t);
      Paint(parent', false, c.up, q);
      FocusUp(links, sentinel, root, c.up, q.(red := false));
      Paint(grand', true, c.up.up, Grow(c.up, q.(red := false)));
      ghost var g := Node(q.(red := false), c.up.x, true, c.up.sib);
      RightRotate(grand', c.up.up, g);
      FocusLeft(links, sentinel, root, c.up.up, RotatedRight(g));
    }

    /** The uncle is black, the parent a right child: turn the red pair outward, then
        rotate the grandparent away. */
    method RotateOutRight(node: Off, parent: Off, grand: Off, ghost c: Ctx, ghost t: Tree) returns (next: Off)
      requires At(c, t) && t.Node? && RedParent(c) && c.up.InR?
      requires node == t.x && parent == c.x && grand == c.up.x
      modifies this`links, this`root
      ensures At(OuterCtx(c, t), Outer(c, t)) && Kept(old(links), links, sentinel)
      ensures Outer(c, t).Node? && next == Outer(c, t).x
    {
      FocusRead(links, sentinel, root, c, t);
      FocusUp(links, sentinel, root, c, t);
      hide Focus;
      next := node;
      var parent', grand' := parent, grand;
      if node == links[parent].left {
        next := parent;
        RightRotate(next, c.up, Grow(c, t));
        FocusRight(links, sentinel, root, c.up, Outward(c, t));
        FocusRead(links, sentinel, root, InR(c.up, Outward(c, t).x, Outward(c, t).red, Outward(c, t).l),
                  Outward(c, t).r);
        parent' := links[next].parent;
        grand' := links[parent'].parent;
      }
      ghost var q := Outward(c, t);
      Paint(parent', false, c.up, q);
      FocusUp(links, sentinel, root, c.up, q.(red := false));
      Paint(grand', true, c.up.up, Grow(c.up, q.(red := false)));
      ghost var g := Node(c.up.sib, c.up.x, true, q.(red := false));
      LeftRotate(grand', c.up.up, g);
      FocusRight(links, sentinel, root, c.up.up, RotatedLeft(g));
    }

    /** One iteration of the rebalancing loop: the parent of `node` is red. */
    method RebalanceStep(node: Off, ghost c: Ctx, ghost t: Tree) returns (next: Off, ghost c': Ctx, ghost t': Tree)
      requires At(c, t) && IsRed(t) && t.x == node && RedAtHole(c, t) && RedParent(c)
      modifies this`links, this`root
      ensures At(c', t') && IsRed(t') && t'.x == next && RedAtHole(c', t')
      ensures Seen(c', t') == Seen(c, t) && Depth(c') < Depth(c) && Kept(old(links), links, sentinel)
    {
      assert !c.up.Top?;
      FocusRead(links, sentinel, root, c, t);
      FocusUp(links, sentinel, root, c, t);
      FocusRead(links, sentinel, root, c.up, Grow(c, t));
      FocusAcross(links, sentinel, root, c.up, Grow(c, t));
      FocusRead(links, sentinel, root, Across(c.up, Grow(c, t)), c.up.sib);
      hide Focus, RedAtHole, Seen, Recolored, Outer, OuterCtx;
      var parent := links[node].parent;
      var grand := links[parent].parent;
      if parent == links[grand].left {
        var temp := links[grand].right;
        if links[temp].red {
          RecoloredKeeps(c, t);
          c', t' := c.up.up, Recolored(c, t);
          Recolor(parent, temp, grand, c, t);
          next := grand;
        } else {
          OuterKeeps(c, t);
          c', t' := OuterCtx(c, t), Outer(c, t);
          next := RotateOutLeft(node, parent, grand, c, t);
        }
      } else {
        var temp := links[grand].left;
        if links[temp].red {
          RecoloredKeeps(c, t);
          c', t' := c.up.up, Recolored(c, t);
          Recolor(parent, temp, grand, c, t);
          next := grand;
        } else {
          OuterKeeps(c, t);
          c', t' := OuterCtx(c, t), Outer(c, t);
          next := RotateOutRight(node, parent, grand, c, t);
        }
      }
    }

    /** The rebalancing loop of mps_rbtree_insert, up to the final blackening of the root. */
    method Rebalance(start: Off, ghost c0: Ctx, ghost t0: Tree)
      requires At(c0, t0) && IsRed(t0) && t0.x == start && RedAtHole(c0, t0)
      modifies this`links, this`root, this`tree
      ensures At(Top, tree) && RedBlack(tree) && Inorder(tree) == Seen(c0, t0)
      ensures Kept(old(links), links, sentinel)
    {
      var node := start;
      ghost var c, t := c0, t0;
      FocusRead(links, sentinel, root, c, t);
      hide Focus, Seen;
      while node != root && links[links[node].parent].red
        invariant At(c, t) && IsRed(t) && t.x == node && RedAtHole(c, t)
        invariant node in links && (node != root ==> links[node].parent in links)
        invariant Seen(c, t) == Seen(c0, t0) && Kept(old(links), links, sentinel)
        decreases Depth(c)
      {
        FocusRead(links, sentinel, root, c, t);
        node, c, t := RebalanceStep(node, c, t);
        FocusRead(links, sentinel, root, c, t);
      }
      FocusRead(links, sentinel, root, c, t);
      RootBlackened(links, sentinel, root, c, t);
      links := links[root := links[root].(red := false)];
      tree := if c.Top? then t.(red := false) else Plug(c, t);
    }

    /** mps_rbtree_insert. Wherever the comparator sends the node, the result is a
        red-black tree with the node added to the sequence; when the comparator splits
        the old sequence at one position, it is added there. */
    method Insert(node: Off) returns (ghost i: nat)
      requires Valid() && node in links && node in payload && node != sentinel && node !in Elems(tree)
      modifies this`links, this`root, this`tree
      ensures Valid() && links.Keys == old(links).Keys
      ensures i <= |old(Inorder(tree))|
      ensures Inorder(tree) == Inserted(old(Inorder(tree)), i, node)
      ensures forall k :: Splits(insert, payload, old(Inorder(tree)), payload[node], k) ==> k == i
    {
      FocusRead(links, sentinel, root, Top, tree);
      if root == sentinel {
        links := links[node := Link(sentinel, sentinel, 0, false)];
        root := node;
        tree := Node(Leaf, node, false, Leaf);
        i := 0;
        Fold(links, sentinel, Leaf, node, false, Leaf);
        return;
      }
      hide Focus, RedBlack, Elems;
      ghost var s := Inorder(tree);
      ghost var c := InsertValue(root, node);
      ghost var t := Node(Leaf, node, true, Leaf);
      i := |Before(c)|;
      SeenIsInorder(c, Leaf);
      RedLeafFits(c, node);
      Rebalance(node, c, t);
      InsertedElems(s, i, node, tree, old(tree));
    }

    /** What a fixup step of mps_rbtree_delete may assume about the node that is one
        black short, which may be the sentinel with its parent field as a scratch word. */
    ghost predicate Short(temp: Off, c: Ctx, t: Tree)
      reads this`links, this`root
    {
      At(c, t) && ShortAtHole(c, t) && temp == Rt(t, sentinel) &&
      (!c.Top? ==> temp in links && links[temp].parent == c.x)
    }

    /** A red sibling to the right. */
    method SiblingUpLeft(temp: Off, w: Off, parent: Off, ghost c: Ctx, ghost t: Tree)
      requires Short(temp, c, t) && !IsRed(t) && c.InL? && IsRed(c.sib) && w == c.sib.x && parent == c.x
      modifies this`links, this`root
      ensures Short(temp, SiblingUp(c), t) && Kept(old(links), links, sentinel)
    {
      SiblingUpKeeps(c, t);
      ShortSibling(c, t);
      FocusRead(links, sentinel, root, c, t);
      FocusAcross(links, sentinel, root, c, t);
      hide Focus, ShortAtHole;
      ghost var w' := c.sib.(red := false);
      Paint(w, false, Across(c, t), c.sib);
      FocusUp(links, sentinel, root, Across(c, t), w');
      Paint(parent, true, c.up, Node(t, c.x, c.red, w'));
      LeftRotate(parent, c.up, Node(t, c.x, true, w'));
      ghost var g := RotatedLeft(Node(t, c.x, true, w'));
      FocusLeft(links, sentinel, root, c.up, g);
      FocusLeft(links, sentinel, root, InL(c.up, g.x, g.red, g.r), g.l);
      FocusRead(links, sentinel, root, SiblingUp(c), t);
    }

    /** A red sibling to the left. */
    method SiblingUpRight(temp: Off, w: Off, parent: Off, ghost c: Ctx, ghost t: Tree)
      requires Short(temp, c, t) && !IsRed(t) && c.InR? && IsRed(c.sib) && w == c.sib.x && parent == c.x
      modifies this`links, this`root
      ensures Short(temp, SiblingUp(c), t) && Kept(old(links), links, sentinel)
    {
      SiblingUpKeeps(c, t);
      ShortSibling(c, t);
      FocusRead(links, sentinel, root, c, t);
      FocusAcross(links, sentinel, root, c, t);
      hide Focus, ShortAtHole;
      ghost var w' := c.sib.(red := false);
      Paint(w, false, Across(c, t), c.sib);
      FocusUp(links, sentinel, root, Across(c, t), w');
      Paint(parent, true, c.up, Node(w', c.x, c.red, t));
      RightRotate(parent, c.up, Node(w', c.x, true, t));
      ghost var g := RotatedRight(Node(w', c.x, true, t));
      FocusRight(links, sentinel, root, c.up, g);
      FocusRight(links, sentinel, root, InR(c.up, g.x, g.red, g.l), g.r);
      FocusRead(links, sentinel, root, SiblingUp(c), t);
    }

    /** The near child of the black right sibling is its only red child: turn the pair. */
    method TurnLeft(w: Off, ghost c: Ctx, ghost t: Tree) returns (w': Off)
      requires At(c, t) && c.InL? && c.sib.Node? && !c.sib.red && w == c.sib.x
      requires IsRed(c.sib.l) && !IsRed(c.sib.r)
      modifies this`links, this`root
      ensures At(Frame(c, c.up, c.red, Turned(c, c.sib)), t) && w' == Turned(c, c.sib).x
      ensures Kept(old(links), links, sentinel)
    {
      SiblingRead(links, sentinel, root, c, t);
      FocusAcross(links, sentinel, root, c, t);
      FocusLeft(links, sentinel, root, Across(c, t), c.sib);
      hide Focus;
      ghost var a, s := Across(c, t), c.sib;
      w' := links[w].left;
      Paint(w', false, InL(a, w, false, s.r), s.l);
      FocusUp(links, sentinel, root, InL(a, w, false, s.r), s.l.(red := false));
      Paint(w, true, a, Node(s.l.(red := false), w, false, s.r));
      RightRotate(w, a, Node(s.l.(red := false), w, true, s.r));
      FocusAcross(links, sentinel, root, a, Turned(c, s));
    }

    /** A black sibling to the right whose far child is red: rotate it up. */
    method RotateUpLeft(w: Off, parent: Off, ghost c: Ctx, ghost t: Tree)
      requires At(c, t) && c.InL? && c.sib.Node? && !c.sib.red && w == c.sib.x && parent == c.x && IsRed(c.sib.r)
      modifies this`links, this`root
      ensures At(c.up, Filled(c, t)) && Kept(old(links), links, sentinel)
    {
      SiblingRead(links, sentinel, root, c, t);
      FocusAcross(links, sentinel, root, c, t);
      hide Focus;
      var wRight := links[w].right;
      ghost var s := c.sib.(red := c.red);
      Paint(w, links[parent].red, Across(c, t), c.sib);
      FocusUp(links, sentinel, root, Across(c, t), s);
      Paint(parent, false, c.up, Node(t, c.x, c.red, s));
      FocusRight(links, sentinel, root, c.up, Node(t, c.x, false, s));
      ghost var a := InR(c.up, c.x, false, t);
      FocusRight(links, sentinel, root, a, s);
      Paint(wRight, false, InR(a, s.x, s.red, s.l), s.r);
      FocusUp(links, sentinel, root, InR(a, s.x, s.red, s.l), s.r.(red := false));
      ghost var s' := Node(s.l, s.x, s.red, s.r.(red := false));
      FocusUp(links, sentinel, root, a, s');
      LeftRotate(parent, c.up, Node(t, c.x, false, s'));
    }

    /** The near child of the black left sibling is its only red child: turn the pair. */
    method TurnRight(w: Off, ghost c: Ctx, ghost t: Tree) returns (w': Off)
      requires At(c, t) && c.InR? && c.sib.Node? && !c.sib.red && w == c.sib.x
      requires IsRed(c.sib.r) && !IsRed(c.sib.l)
      modifies this`links, this`root
      ensures At(Frame(c, c.up, c.red, Turned(c, c.sib)), t) && w' == Turned(c, c.sib).x
      ensures Kept(old(links), links, sentinel)
    {
      SiblingRead(links, sentinel, root, c, t);
      FocusAcross(links, sentinel, root, c, t);
      FocusRight(links, sentinel, root, Across(c, t), c.sib);
      hide Focus;
      ghost var a, s := Across(c, t), c.sib;
      w' := links[w].right;
      Paint(w', false, InR(a, w, false, s.l), s.r);
      FocusUp(links, sentinel, root, InR(a, w, false, s.l), s.r.(red := false));
      Paint(w, true, a, Node(s.l, w, false, s.r.(red := false)));
      LeftRotate(w, a, Node(s.l, w, true, s.r.(red := false)));
      FocusAcross(links, sentinel, root, a, Turned(c, s));
    }

    /** A black sibling to the left whose far child is red: rotate it up. */
    method RotateUpRight(w: Off, parent: Off, ghost c: Ctx, ghost t: Tree)
      requires At(c, t) && c.InR? && c.sib.Node? && !c.sib.red && w == c.sib.x && parent == c.x && IsRed(c.sib.l)
      modifies this`links, this`root
      ensures At(c.up, Filled(c, t)) && Kept(old(links), links, sentinel)
    {
      SiblingRead(links, sentinel, root, c, t);
      FocusAcross(links, sentinel, root, c, t);
      hide Focus;
      var wLeft := links[w].left;
      ghost var s := c.sib.(red := c.red);
      Paint(w, links[parent].red, Across(c, t), c.sib);
      FocusUp(links, sentinel, root, Across(c, t), s);
      Paint(parent, false, c.up, Node(s, c.x, c.red, t));
      FocusLeft(links, sentinel, root, c.up, Node(s, c.x, false, t));
      ghost var a := InL(c.up, c.x, false, t);
      FocusLeft(links, sentinel, root, a, s);
      Paint(wLeft, false, InL(a, s.x, s.red, s.r), s.l);
      FocusUp(links, sentinel, root, InL(a, s.x, s.red, s.r), s.l.(red := false));
      ghost var s' := Node(s.l.(red := false), s.x, s.red, s.r);
      FocusUp(links, sentinel, root, a, s');
      RightRotate(parent, c.up, Node(s', c.x, false, t));
    }

    /** Both children of the black sibling are black: it turns red, and its parent is
        now one black node short. */
    method PassUp(w: Off, ghost c: Ctx, ghost t: Tree)
      requires At(c, t) && !c.Top? && c.sib.Node? && w == c.sib.x
      modifies this`links
      ensures At(c.up, ShortUp(c, t)) && Kept(old(links), links, sentinel)
    {
      FocusAcross(links, sentinel, root, c, t);
      hide Focus;
      Paint(w, true, Across(c, t), c.sib);
      FocusUp(links, sentinel, root, Across(c, t), c.sib.(red := true));
    }

    /** The fixup at a left child with a black sibling `w`. */
    method FixLeft(temp: Off, w: Off, parent: Off, ghost c: Ctx, ghost t: Tree)
      returns (next: Off, ghost c': Ctx, ghost t': Tree)
      requires Short(temp, c, t) && !IsRed(t) && c.InL? && !IsRed(c.sib) && c.sib.Node? && w == c.sib.x && parent == c.x
      modifies this`links, this`root
      ensures Short(next, c', t') && Seen(c', t') == Seen(c, t) && Kept(old(links), links, sentinel)
      ensures c'.Top? || (c' == c.up && (IsRed(t') <==> c.red))
    {
      SiblingRead(links, sentinel, root, c, t);
      hide Focus, ShortAtHole, Seen, Filled, ShortUp;
      if !links[links[w].left].red && !links[links[w].right].red {
        ShortUpKeeps(c, t);
        c', t' := c.up, ShortUp(c, t);
        PassUp(w, c, t);
        next := parent;
      } else {
        FillEnds(c, t);
        ghost var d := Frame(c, c.up, c.red, Turned(c, c.sib));
        var w' := w;
        if !links[links[w].right].red {
          w' := TurnLeft(w, c, t);
        }
        RotateUpLeft(w', parent, d, t);
        FocusTop(links, sentinel, root, c.up, Filled(d, t));
        c', t' := Top, Plug(c.up, Filled(d, t));
        next := root;
      }
      FocusRead(links, sentinel, root, c', t');
    }

    /** The fixup at a right child with a black sibling `w`. */
    method FixRight(temp: Off, w: Off, parent: Off, ghost c: Ctx, ghost t: Tree)
      returns (next: Off, ghost c': Ctx, ghost t': Tree)
      requires Short(temp, c, t) && !IsRed(t) && c.InR? && !IsRed(c.sib) && c.sib.Node? && w == c.sib.x && parent == c.x
      modifies this`links, this`root
      ensures Short(next, c', t') && Seen(c', t') == Seen(c, t) && Kept(old(links), links, sentinel)
      ensures c'.Top? || (c' == c.up && (IsRed(t') <==> c.red))
    {
      SiblingRead(links, sentinel, root, c, t);
      hide Focus, ShortAtHole, Seen, Filled, ShortUp;
      if !links[links[w].left].red && !links[links[w].right].red {
        ShortUpKeeps(c, t);
        c', t' := c.up, ShortUp(c, t);
        PassUp(w, c, t);
        next := parent;
      } else {
        FillEnds(c, t);
        ghost var d := Frame(c, c.up, c.red, Turned(c, c.sib));
        var w' := w;
        if !links[links[w].left].red {
          w' := TurnRight(w, c, t);
        }
        RotateUpRight(w', parent, d, t);
        FocusTop(links, sentinel, root, c.up, Filled(d, t));
        c', t' := Top, Plug(c.up, Filled(d, t));
        next := root;
      }
      FocusRead(links, sentinel, root, c', t');
    }

    /** One iteration of the fixup loop of mps_rbtree_delete. */
    method FixupStep(temp: Off, ghost c: Ctx, ghost t: Tree) returns (next: Off, ghost c': Ctx, ghost t': Tree)
      requires Short(temp, c, t) && !IsRed(t) && !c.Top?
      modifies this`links, this`root
      ensures Short(next, c', t') && Seen(c', t') == Seen(c, t) && Kept(old(links), links, sentinel)
      ensures Depth(c') < Depth(c) || (Depth(c') == Depth(c) && IsRed(t'))
    {
      ShortSibling(c, t);
      FocusRead(links, sentinel, root, c, t);
      SiblingRead(links, sentinel, root, c, t);
      c', t' := c, t;
      var parent := links[temp].parent;
      if temp == links[parent].left {
        var w := links[parent].right;
        if links[w].red {
          SiblingUpKeeps(c, t);
          SiblingUpLeft(temp, w, parent, c, t);
          c' := SiblingUp(c);
          ShortSibling(c', t);
          SiblingRead(links, sentinel, root, c', t);
          w := links[parent].right;
        }
        next, c', t' := FixLeft(temp, w, parent, c', t);
      } else {
        var w := links[parent].left;
        if links[w].red {
          SiblingUpKeeps(c, t);
          SiblingUpRight(temp, w, parent, c, t);
          c' := SiblingUp(c);
          ShortSibling(c', t);
          SiblingRead(links, sentinel, root, c', t);
          w := links[parent].left;
        }
        next, c', t' := FixRight(temp, w, parent, c', t);
      }
    }

    /** The fixup loop of mps_rbtree_delete and its final blackening. */
    method Fixup(start: Off, ghost c0: Ctx, ghost t0: Tree)
      requires Short(start, c0, t0)
      modifies this`links, this`root, this`tree
      ensures At(Top, tree) && RedBlack(tree) && Inorder(tree) == Seen(c0, t0)
      ensures Kept(old(links), links, sentinel)
    {
      var temp := start;
      ghost var c, t := c0, t0;
      FocusRead(links, sentinel, root, c, t);
      while temp != root && !links[temp].red
        invariant Short(temp, c, t) && temp in links
        invariant Seen(c, t) == Seen(c0, t0) && Kept(old(links), links, sentinel)
        decreases 2 * Depth(c) + if IsRed(t) then 0 else 1
      {
        FocusRead(links, sentinel, root, c, t);
        temp, c, t := FixupStep(temp, c, t);
        FocusRead(links, sentinel, root, c, t);
      }
      FocusRead(links, sentinel, root, c, t);
      TempBlackened(links, sentinel, root, c, t);
      links := links[temp := links[temp].(red := false)];
      tree := Plug(c, Blacken(t));
    }

    /** mps_rbtree_min: the first node of the subtree in focus. */
    method Min(start: Off, ghost c: Ctx, ghost t: Tree) returns (node: Off, ghost ci: Ctx, ghost u: Tree)
      requires At(c, t) && t.Node? && t.x == start
      ensures u.Node? && u.l.Leaf? && u.x == node && Plug(ci, u) == t && Before(ci) == []
      ensures At(Comp(ci, c), u) && Inorder(t) != [] && node == Inorder(t)[0]
    {
      node, ci, u := start, Top, t;
      FocusRead(links, sentinel, root, c, t);
      hide Focus;
      while links[node].left != sentinel
        invariant u.Node? && u.x == node && Plug(ci, u) == t && Before(ci) == []
        invariant At(Comp(ci, c), u) && node in links
        decreases u
      {
        FocusRead(links, sentinel, root, Comp(ci, c), u);
        FocusLeft(links, sentinel, root, Comp(ci, c), u);
        node, ci, u := links[node].left, InL(ci, u.x, u.red, u.r), u.l;
        FocusRead(links, sentinel, root, Comp(ci, c), u);
      }
      FocusRead(links, sentinel, root, Comp(ci, c), u);
      FocusLeft(links, sentinel, root, Comp(ci, c), u);
      FocusRead(links, sentinel, root, InL(Comp(ci, c), u.x, u.red, u.r), u.l);
      FirstSeen(ci, u);
    }

    /** The deleted node, scrubbed. */
    method Scrub(node: Off)
      requires node in links && node in payload
      modifies this`links, this`payload
      ensures links == old(links)[node := Link(0, 0, 0, old(links)[node].red)]
      ensures payload == old(payload)[node := old(payload)[node].(key := 0)]
    {
      links := links[node := links[node].(left := 0, right := 0, parent := 0)];
      payload := payload[node := payload[node].(key := 0)];
    }

    /** The child field that leads to `subst` is made to lead to `temp`. */
    method BypassParent(subst: Off, temp: Off, ghost c: Ctx, ghost u: Tree)
      requires At(c, u) && u.Node? && u.x == subst && !c.Top?
      modifies this`links
      ensures c.x in old(links)
      ensures links == old(links)[c.x := if c.InL? then old(links[c.x]).(left := temp)
        else old(links[c.x]).(right := temp)]
    {
      FocusRead(links, sentinel, root, c, u);
      hide Focus;
      var substParent := links[subst].parent;
      if subst == links[substParent].left {
        links := links[substParent := links[substParent].(left := temp)];
      } else {
        links := links[substParent := links[substParent].(right := temp)];
      }
    }

    /** `subst` gives its place to its only child `k`, or to the sentinel. */
    method Bypass(subst: Off, temp: Off, ghost c: Ctx, ghost u: Tree, ghost k: Tree)
      requires At(c, u) && u.Node? && u.x == subst && !c.Top? && temp == Rt(k, sentinel)
      requires (u.l.Leaf? && k == u.r) || (u.r.Leaf? && k == u.l)
      modifies this`links
      ensures CutOut(old(links), links, sentinel, c, subst, k)
    {
      FocusRead(links, sentinel, root, c, u);
      UnfoldFocus(links, sentinel, root, c, u);
      Unfold(links, sentinel, u);
      hide Focus, Rep, Distinct, Elems, CElems;
      BypassParent(subst, temp, c, u);
      links := links[temp := links[temp].(parent := links[subst].parent)];
    }

    /** A node below the root with at most one child `k` is cut out. */
    method CutNode(node: Off, temp: Off, ghost c: Ctx, ghost t: Tree, ghost k: Tree)
      requires At(c, t) && t.Node? && t.x == node && !c.Top? && node in payload && temp == Rt(k, sentinel)
      requires (t.l.Leaf? && k == t.r) || (t.r.Leaf? && k == t.l)
      modifies this`links, this`payload
      ensures At(c, k) && temp in links && links[temp].parent == c.x && links.Keys == old(links).Keys
      ensures payload == old(payload)[node := old(payload)[node].(key := 0)]
    {
      FocusRead(links, sentinel, root, c, t);
      hide Focus;
      Bypass(node, temp, c, t, k);
      CutOutScrubbed(old(links), links, sentinel, root, c, t, k, Link(0, 0, 0, links[node].red));
      Scrub(node);
      CutFocus(old(links), links, sentinel, root, c, t, k);
    }

    /** The successor `subst`, the end of the leftmost path `ci` on the right of `node`,
        is cut out. */
    method CutSuccessor(node: Off, subst: Off, temp: Off, ghost c: Ctx, ghost t: Tree, ghost ci: Ctx, ghost u: Tree)
      requires At(c, t) && t.Node? && t.x == node && t.r == Plug(ci, u)
      requires u.Node? && u.l.Leaf? && u.x == subst && temp == Rt(u.r, sentinel)
      modifies this`links
      ensures Spliced(old(links), links, sentinel, t, ci, u)
      ensures temp in links && links[temp].parent == Comp(ci, InR(c, subst, t.red, t.l)).x
    {
      SuccessorReads(links, sentinel, root, c, t, ci, u);
      hide Focus;
      BypassParent(subst, temp, Comp(ci, InR(c, node, t.red, t.l)), u);
      if links[subst].parent == node {
        links := links[temp := links[temp].(parent := subst)];
      } else {
        links := links[temp := links[temp].(parent := links[subst].parent)];
      }
    }

    /** `subst` gets the links and the colour of `node` and hangs where it hangs. */
    method Inherit(node: Off, subst: Off, ghost c: Ctx)
      requires node in links && subst in links && subst != node && (c.Top? <==> node == root)
      requires !c.Top? ==> CReads(links, sentinel, c, node) && c.x != subst
      modifies this`links, this`root
      ensures links.Keys == old(links).Keys && links[subst] == old(links)[node]
      ensures HoleSet(old(links), links, c, old(root), root, subst)
      ensures forall z {:trigger links[z]} ::
        z in links && z != subst && (c.Top? || z != c.x) ==> links[z] == old(links)[z]
    {
      links := links[subst := links[node]];
      ReplaceChild(node, subst, c);
    }

    /** All links around `node` are those of `subst` now. */
    method Hook(node: Off, subst: Off, ghost c: Ctx)
      requires node in links && subst in links && subst != node && (c.Top? <==> node == root)
      requires !c.Top? ==> CReads(links, sentinel, c, node) && c.x != subst
      requires links[node].left in links && links[node].right in links
      requires subst != links[node].left && subst != links[node].right && subst != sentinel
      requires links[node].left == links[node].right ==> links[node].left == sentinel
      requires !c.Top? ==> c.x != links[node].left && c.x != links[node].right
      modifies this`links, this`root
      ensures links.Keys == old(links).Keys && links[subst] == old(links)[node]
      ensures HoleSet(old(links), links, c, old(root), root, subst)
      ensures
        var a, b := old(links)[node].left, old(links)[node].right;
        (a != sentinel ==> links[a] == old(links)[a].(parent := subst)) &&
        (b != sentinel ==> links[b] == old(links)[b].(parent := subst)) &&
        forall z {:trigger links[z]} ::
          z in links && z != subst && (z != a || a == sentinel) && (z != b || b == sentinel) && (c.Top? || z != c.x) ==>
          links[z] == old(links)[z]
    {
      Inherit(node, subst, c);
      Adopt(links[subst].left, subst);
      Adopt(links[subst].right, subst);
    }

    /** `subst` takes the place of `node`, which is scrubbed. */
    method TakePlace(node: Off, subst: Off, ghost c: Ctx, ghost l: Tree, ghost red: bool, ghost r: Tree)
      requires Loose(links, sentinel, root, c, l, node, red, r) && node != sentinel && node in payload
      requires subst in links && subst != sentinel && subst != node
      requires subst !in Elems(l) && subst !in Elems(r) && subst !in CElems(c)
      modifies this`links, this`root, this`payload
      ensures At(c, Node(l, subst, red, r)) && Kept(old(links), links, sentinel)
      ensures payload == old(payload)[node := old(payload)[node].(key := 0)]
    {
      hide Loose, Elems, CElems, Focus;
      LooseOffsets(links, sentinel, root, c, l, node, red, r);
      LooseFrame(links, sentinel, root, c, l, node, red, r);
      Hook(node, subst, c);
      Scrub(node);
      ReplaceFocus(old(links), links, sentinel, old(root), root, c, l, node, red, r, subst);
    }

    /** Deletion of a node with at most one child. */
    method DeleteOuter(node: Off, temp: Off, ghost c: Ctx, ghost t: Tree, ghost k: Tree)
      requires At(c, t) && RedBlack(Plug(c, t)) && t.Node? && t.x == node && node in payload && temp == Rt(k, sentinel)
      requires (t.l.Leaf? && k == t.r) || (t.r.Leaf? && k == t.l)
      modifies this`links, this`root, this`payload, this`tree
      ensures At(Top, tree) && RedBlack(tree) && links.Keys == old(links).Keys
      ensures Seen(c, t)[Pos(c, t)] == node && Inorder(tree) == Dropped(Seen(c, t), Pos(c, t))
      ensures payload == old(payload)[node := old(payload)[node].(key := 0)]
    {
      FocusRead(links, sentinel, root, c, t);
      CutSeen(c, t, k);
      CutShort(c, t, k);
      if node == root {
        RootCut(links, sentinel, root, t, k, Link(0, 0, 0, links[node].red));
        root := temp;
        links := links[temp := links[temp].(red := false)];
        Scrub(node);
        tree := Blacken(k);
        return;
      }
      hide Focus, ShortAtHole, RedBlack;
      var red := links[node].red;
      CutNode(node, temp, c, t, k);
      if red {
        FocusTop(links, sentinel, root, c, k);
        SeenIsInorder(c, k);
        tree := Plug(c, k);
        return;
      }
      Fixup(temp, c, k);
    }

    /** The successor of a node with two children moves into its place. */
    method MoveSuccessor(node: Off, subst: Off, temp: Off, ghost c: Ctx, ghost t: Tree, ghost ci: Ctx, ghost u: Tree)
      requires At(c, t) && t.Node? && t.x == node && node in payload && t.r == Plug(ci, u)
      requires u.Node? && u.l.Leaf? && u.x == subst && temp == Rt(u.r, sentinel)
      modifies this`links, this`root, this`payload
      ensures At(c, Node(t.l, subst, t.red, Plug(ci, u.r))) && links.Keys == old(links).Keys
      ensures temp == sentinel ==> temp in links && links[temp].parent == Comp(ci, InR(c, subst, t.red, t.l)).x
      ensures payload == old(payload)[node := old(payload)[node].(key := 0)]
    {
      FocusRead(links, sentinel, root, c, t);
      CutFresh(links, sentinel, root, c, t, ci, u);
      hide Focus, Loose, Elems, CElems, Comp, Plug;
      CutSuccessor(node, subst, temp, c, t, ci, u);
      SplicedLoose(old(links), links, sentinel, root, c, t, ci, u);
      TakePlace(node, subst, c, t.l, t.red, Plug(ci, u.r));
    }

    /** The successor takes the place of the node; what was below the successor is in focus. */
    method SpliceOut(node: Off, subst: Off, temp: Off, ghost c: Ctx, ghost t: Tree, ghost ci: Ctx, ghost u: Tree)
      returns (red: bool)
      requires At(c, t) && t.Node? && t.x == node && node in payload
      requires t.r == Plug(ci, u) && u.Node? && u.l.Leaf? && u.x == subst && temp == Rt(u.r, sentinel)
      modifies this`links, this`root, this`payload
      ensures
        var d := Comp(ci, InR(c, subst, t.red, t.l));
        At(d, u.r) && (temp == sentinel ==> temp in links && !d.Top? && links[temp].parent == d.x) && red == u.red
      ensures links.Keys == old(links).Keys && payload == old(payload)[node := old(payload)[node].(key := 0)]
    {
      SuccessorReads(links, sentinel, root, c, t, ci, u);
      hide Focus, Plug, Comp;
      FocusRead(links, sentinel, root, Comp(ci, InR(c, node, t.red, t.l)), u);
      red := links[subst].red;
      MoveSuccessor(node, subst, temp, c, t, ci, u);
      FocusRight(links, sentinel, root, c, Node(t.l, subst, t.red, Plug(ci, u.r)));
      FocusIn(links, sentinel, root, ci, InR(c, subst, t.red, t.l), u.r);
      FocusRead(links, sentinel, root, Comp(ci, InR(c, subst, t.red, t.l)), u.r);
    }

    /** Deletion of a node with two children. */
    method DeleteInner(node: Off, subst: Off, temp: Off, ghost c: Ctx, ghost t: Tree, ghost ci: Ctx, ghost u: Tree)
      requires At(c, t) && RedBlack(Plug(c, t)) && t.Node? && t.x == node && node in payload
      requires t.r == Plug(ci, u) && Before(ci) == []
      requires u.Node? && u.l.Leaf? && u.x == subst && temp == Rt(u.r, sentinel)
      modifies this`links, this`root, this`payload, this`tree
      ensures At(Top, tree) && RedBlack(tree) && links.Keys == old(links).Keys
      ensures Seen(c, t)[Pos(c, t)] == node && Inorder(tree) == Dropped(Seen(c, t), Pos(c, t))
      ensures payload == old(payload)[node := old(payload)[node].(key := 0)]
    {
      ghost var d := Comp(ci, InR(c, subst, t.red, t.l));
      hide Focus, ShortAtHole, RedBlack, Seen, Dropped, Comp, Plug, Pos, Inorder;
      SpliceShort(c, t, ci, u);
      SpliceSeen(c, t, ci, u);
      SeenIn(ci, c, t.l, subst, t.red, u.r);
      var red := SpliceOut(node, subst, temp, c, t, ci, u);
      if red {
        FocusTop(links, sentinel, root, d, u.r);
        SeenIsInorder(d, u.r);
        tree := Plug(d, u.r);
        return;
      }
      Fixup(temp, d, u.r);
    }

    /** mps_rbtree_delete. */
    method Delete(node: Off) returns (ghost i: nat)
      requires Valid() && node in Elems(tree)
      modifies this`links, this`root, this`payload, this`tree
      ensures Valid() && links.Keys == old(links).Keys
      ensures i < |old(Inorder(tree))| && old(Inorder(tree))[i] == node
      ensures Inorder(tree) == Dropped(old(Inorder(tree)), i)
      ensures Elems(tree) == old(Elems(tree)) - {node}
      ensures payload == old(payload)[node := old(payload)[node].(key := 0)]
    {
      ghost var c, t := LocateFocus(links, sentinel, root, tree, node);
      SeenIsInorder(c, t);
      i := Pos(c, t);
      FocusRead(links, sentinel, root, c, t);
      FocusLeft(links, sentinel, root, c, t);
      FocusRead(links, sentinel, root, InL(c, t.x, t.red, t.r), t.l);
      FocusRight(links, sentinel, root, c, t);
      FocusRead(links, sentinel, root, InR(c, t.x, t.red, t.l), t.r);
      assert Distinct(tree);
      hide Focus, Elems, RedBlack, Seen, Dropped;
      if links[node].left == sentinel {
        DeleteOuter(node, links[node].right, c, t, t.r);
      } else if links[node].right == sentinel {
        DeleteOuter(node, links[node].left, c, t, t.l);
      } else {
        var subst;
        ghost var ci, u;
        subst, ci, u := Min(links[node].right, InR(c, t.x, t.red, t.l), t.r);
        FocusRead(links, sentinel, root, Comp(ci, InR(c, t.x, t.red, t.l)), u);
        DeleteInner(node, subst, links[subst].right, c, t, ci, u);
      }
      DeletedElems(old(tree), tree, i);
    }

    /** mps_rbtree_next: the node after `node` in the sequence, `None` for NULL. */
    method Next(node: Off) returns (r: Option<Off>)
      requires Valid() && node in Elems(tree)
      ensures forall j {:trigger Inorder(tree)[j]} :: 0 <= j < |Inorder(tree)| && Inorder(tree)[j] == node ==>
        r == if j + 1 < |Inorder(tree)| then Some(Inorder(tree)[j + 1]) else None
    {
      InorderElems(tree);
      DistinctNoDup(tree);
      hide Focus, RedBlack, Elems, Inorder;
      ghost var i;
      r, i := Successor(node);
    }

    /** The walk of mps_rbtree_next from the position `i` of `node`. */
    method Successor(node: Off) returns (r: Option<Off>, ghost i: nat)
      requires Valid() && node in Elems(tree)
      ensures i < |Inorder(tree)| && Inorder(tree)[i] == node
      ensures r == if i + 1 < |Inorder(tree)| then Some(Inorder(tree)[i + 1]) else None
    {
      ghost var s := Inorder(tree);
      ghost var c, t := LocateFocus(links, sentinel, root, tree, node);
      SeenIsInorder(c, t);
      i := Pos(c, t);
      SeenAt(c, t);
      FocusRead(links, sentinel, root, c, t);
      FocusRight(links, sentinel, root, c, t);
      FocusRead(links, sentinel, root, InR(c, t.x, t.red, t.l), t.r);
      hide Focus;
      if links[node].right != sentinel {
        var next;
        ghost var ci, u;
        next, ci, u := Min(links[node].right, InR(c, t.x, t.red, t.l), t.r);
        FirstSeen(ci, u);
        NextSeen(c, t);
        return Some(next), i;
      }
      var cursor := node;
      while true
        invariant At(c, t) && t.Node? && t.x == cursor && cursor in links
        invariant Seen(c, t) == s && |Before(c)| + |Inorder(t)| == i + 1
        decreases Depth(c)
      {
        FocusRead(links, sentinel, root, c, t);
        var parent := links[cursor].parent;
        if cursor == root {
          return None, i;
        }
        FocusUp(links, sentinel, root, c, t);
        SeenUp(c, t);
        if cursor == links[parent].left {
          SeenAt(c.up, Grow(c, t));
          return Some(parent), i;
        }
        c, t := c.up, Grow(c, t);
        cursor := parent;
      }
    }

    /** The first node, if there is one. */
    method First() returns (r: Option<Off>)
      requires Valid()
      ensures r == if Inorder(tree) == [] then None else Some(Inorder(tree)[0])
    {
      FocusRead(links, sentinel, root, Top, tree);
      if root == sentinel {
        return None;
      }
      var first;
      ghost var ci, u;
      first, ci, u := Min(root, Top, tree);
      FirstSeen(ci, u);
      r := Some(first);
    }

    /** Starting at mps_rbtree_min and repeating mps_rbtree_next meets every node once,
        in sequence, and then NULL. */
    method Walk() returns (visited: seq<Off>)
      requires Valid()
      ensures visited == Inorder(tree)
    {
      visited := [];
      InorderElems(tree);
      hide Focus, RedBlack, Elems, Inorder;
      ghost var s := Inorder(tree);
      var cursor := First();
      while cursor.Some?
        invariant |visited| <= |s| && visited == s[..|visited|]
        invariant cursor == if |visited| < |s| then Some(s[|visited|]) else None
        decreases |s| - |visited|
      {
        var node := cursor.value;
        cursor := Next(node);
        visited := visited + [node];
      }
    }

    /** The search for `p` has come down to `node`, where the subtree `t` begins. */
    ghost predicate Searching(c: Ctx, t: Tree, p: Payload, node: Off, steps: nat)
      reads this
    {
      At(c, t) && Plug(c, t) == tree && node == Rt(t, sentinel) && (node == sentinel <==> t.Leaf?) &&
      Narrowed(payload, c, t, p) && steps == Depth(c) &&
      Pow2(steps) <= (|Inorder(tree)| + 1) * (|Inorder(tree)| + 1)
    }

    lemma {:induction false} SearchStart(p: Payload)
      requires Valid() && Ascending(payload, Inorder(tree))
      ensures Searching(Top, tree, p, root, 0)
    {
      FocusRead(links, sentinel, root, Top, tree);
      SeenIsInorder(Top, tree);
      DescentBound(Top, tree);
      hide Focus, RedBlack, Pow2, GoesLeft, Elems;
      InorderElems(tree);
    }

    lemma {:induction false} SearchNode(c: Ctx, t: Tree, p: Payload, node: Off, steps: nat)
      requires Valid() && Searching(c, t, p, node, steps) && node != sentinel
      ensures t.Node? && t.x == node && node in links && node in payload && node in Elems(tree)
    {
      FocusRead(links, sentinel, root, c, t);
      hide Focus, RedBlack, Narrowed, Inorder, Pow2, CElems, Seen;
      ElemsPlug(c, t);
    }

    lemma {:induction false} SearchLeft(c: Ctx, t: Tree, p: Payload, node: Off, steps: nat)
      requires Valid() && Ascending(payload, Inorder(tree)) && Searching(c, t, p, node, steps) && t.Node?
      requires node in links && node in payload && GoesLeft(Luadict, p, payload[node])
      ensures Searching(InL(c, t.x, t.red, t.r), t.l, p, links[node].left, steps + 1)
    {
      hide Focus, RedBlack, Narrowed, Ascending, Inorder, Seen, Pow2, GoesLeft, Elems, CElems;
      FocusRead(links, sentinel, root, c, t);
      FocusLeft(links, sentinel, root, c, t);
      SeenIsInorder(c, t);
      NarrowLeft(payload, c, t, p);
      FocusRead(links, sentinel, root, InL(c, t.x, t.red, t.r), t.l);
      DescentBound(InL(c, t.x, t.red, t.r), t.l);
    }

    lemma {:induction false} SearchRight(c: Ctx, t: Tree, p: Payload, node: Off, steps: nat)
      requires Valid() && Ascending(payload, Inorder(tree)) && Searching(c, t, p, node, steps) && t.Node?
      requires node in links && node in payload && GoesLeft(Luadict, payload[node], p)
      ensures Searching(InR(c, t.x, t.red, t.l), t.r, p, links[node].right, steps + 1)
    {
      hide Focus, RedBlack, Narrowed, Ascending, Inorder, Seen, Pow2, GoesLeft, Elems, CElems;
      FocusRead(links, sentinel, root, c, t);
      FocusRight(links, sentinel, root, c, t);
      SeenIsInorder(c, t);
      NarrowRight(payload, c, t, p);
      FocusRead(links, sentinel, root, InR(c, t.x, t.red, t.l), t.r);
      DescentBound(InR(c, t.x, t.red, t.l), t.r);
    }

    lemma {:induction false} SearchEnd(c: Ctx, t: Tree, p: Payload, steps: nat)
      requires Valid() && Searching(c, t, p, sentinel, steps)
      ensures forall x :: x in Elems(tree) ==> x in payload && payload[x] != p
      ensures Pow2(steps) <= (|Inorder(tree)| + 1) * (|Inorder(tree)| + 1)
    {
      hide Focus, RedBlack, Narrowed, Inorder, Pow2, Elems;
      NarrowedAway(payload, c, tree, p);
    }

    /** The descent of mps_shdict_lookup and mps_shdict_peek: first by hash, then by key
        string. It finds the key if and only if it is in the tree, in at most
        2*log2(n+1) steps. */
    method Search(hash: uint64, kdata: seq<byte>) returns (r: Option<Off>, ghost steps: nat)
      requires Valid() && Ascending(payload, Inorder(tree))
      ensures r.Some? ==> r.value in Elems(tree) && payload[r.value] == Payload(hash, kdata)
      ensures r.None? ==> forall x :: x in Elems(tree) ==> payload[x] != Payload(hash, kdata)
      ensures Pow2(steps) <= (|Inorder(tree)| + 1) * (|Inorder(tree)| + 1)
    {
      ghost var c, t := Top, tree;
      ghost var p := Payload(hash, kdata);
      var node := root;
      steps := 0;
      SearchStart(p);
      while node != sentinel
        invariant Searching(c, t, p, node, steps)
        decreases t
      {
        SearchNode(c, t, p, node, steps);
        hide Valid, Ascending, GoesLeft, Elems, Inorder, Pow2, At, Narrowed;
        var q := payload[node];
        SearchCompares(p, q);
        var rc := Memn2cmp(kdata, q.name);
        if hash == q.key && rc == 0 {
          return Some(node), steps;
        }
        if hash < q.key || (hash == q.key && rc < 0) {
          SearchLeft(c, t, p, node, steps);
          node := links[node].left;
          c, t := InL(c, t.x, t.red, t.r), t.l;
        } else {
          SearchRight(c, t, p, node, steps);
          node := links[node].right;
          c, t := InR(c, t.x, t.red, t.l), t.r;
        }
        steps := steps + 1;
      }
      SearchEnd(c, t, p, steps);
      return None, steps;
    }
  }
}
