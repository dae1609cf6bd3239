/** rbt.c's intrusive red-black tree: an arena of `struct rb_node` records (the id
    of a record stands for its address), the caller's root pointer, and the `value`
    of the `struct int_rb_node` that contains each record. The ghost `shape` is the
    tree the arena stores; every method states its effect on it. */
module Rbt {
  import opened RbModel
  import opened RbLemmas
  import opened RbCases
  import opened RbLinks

  /** The slot that a path ends in. */
  function SlotOf(ctx: Ctx): (s: Slot)
    ensures s.RootSlot? <==> ctx.Top?
    ensures ctx.InL? ==> s == LeftOf(ctx.id)
    ensures ctx.InR? ==> s == RightOf(ctx.id)
  {
    match ctx
    case Top => RootSlot
    case InL(_, id, _, _) => LeftOf(id)
    case InR(_, id, _, _) => RightOf(id)
  }

  class RbTree {
    var nodes: seq<RbNode>
    var value: seq<int>
    var root: int
    ghost var shape: Tree

    /** The arena stores `shape`, whose ids are distinct. */
    ghost predicate Shaped()
      reads this
    {
      |value| == |nodes| && Wf(shape) && Rep(shape, nodes, root)
    }

    /** Between public operations the stored tree obeys the red-black rules. */
    ghost predicate Valid()
      reads this
    {
      Shaped() && RedBlack(shape)
    }

    constructor ()
      ensures Valid() && shape == Nil && root == NIL && nodes == [] && value == []
    {
      nodes := [];
      value := [];
      root := NIL;
      shape := Nil;
    }

    /** `n->blackness = c` for the node n in the hole of `ctx`. */
    method SetBlackness(n: int, c: int, ghost ctx: Ctx, ghost t: Tree)
      requires Shaped() && shape == Plug(ctx, t) && t.Node? && t.id == n
      modifies this
      ensures Shaped() && shape == Plug(ctx, Paint(t, c))
      ensures InOrder(shape) == old(InOrder(shape)) && Ids(shape) == old(Ids(shape))
      ensures 0 <= n < old(|nodes|) && nodes == old(nodes)[n := old(nodes[n]).(blackness := c)]
      ensures root == old(root) && value == old(value)
      ensures KeepsOutside(old(nodes), nodes, old(Ids(shape)))
    {
      IdsPlug(ctx, t);
      RepPaint(ctx, t, nodes, root, c);
      PaintPlug(ctx, t, c);
      nodes := nodes[n := nodes[n].(blackness := c)];
      shape := Plug(ctx, Paint(t, c));
    }

    /** get_p_gp: the parent and the grandparent of `node` (its unused `s` is left out). */
    method GetPGp(node: int, ghost ctx: Ctx, ghost t: Tree) returns (p: int, gp: int)
      requires Shaped() && shape == Plug(ctx, t) && t.Node? && t.id == node
      ensures p == CtxId(ctx)
      ensures gp == if ctx.Top? then NIL else CtxId(ctx.up)
    {
      RepPlug(ctx, t, nodes, root);
      p := nodes[node].parent;
      if p != NIL {
        gp := nodes[p].parent;
      } else {
        gp := NIL;
      }
    }

    /** malloc of a `struct int_rb_node` holding `v`: a fresh record at the end of the
        arena, not yet in the tree. Its links and colour are written before they are read. */
    method NewNode(v: int) returns (n: int)
      requires Shaped()
      modifies this
      ensures Shaped() && shape == old(shape) && root == old(root)
      ensures n == old(|nodes|) && nodes == old(nodes) + [RbNode(NIL, NIL, NIL, RED)] && value == old(value) + [v]
    {
      RepGrow(shape, nodes, root, RbNode(NIL, NIL, NIL, RED));
      n := |nodes|;
      nodes := nodes + [RbNode(NIL, NIL, NIL, RED)];
      value := value + [v];
    }

    /** `*link`, the pointer stored in the root pointer or a child slot. */
    function Load(link: Slot): int
      reads this
      requires SlotIn(link, nodes)
    {
      match link
      case RootSlot => root
      case LeftOf(n) => nodes[n].left
      case RightOf(n) => nodes[n].right
    }

    /** rb_link_node: hang `node` as a childless node in the empty slot that `ctx`
        ends in, below `parent`. Its colour is whatever the record held. */
    method LinkNode(node: int, parent: int, slot: Slot, ghost ctx: Ctx)
      requires Shaped() && shape == Plug(ctx, Nil)
      requires 0 <= node < |nodes| && node !in Ids(shape)
      requires parent == CtxId(ctx) && slot == SlotOf(ctx)
      modifies this
      ensures Shaped() && shape == Plug(ctx, Node(Nil, node, old(nodes[node].blackness), Nil))
      ensures |nodes| == old(|nodes|) && value == old(value)
      ensures nodes[node] == RbNode(parent, NIL, NIL, old(nodes[node].blackness))
      ensures forall i :: 0 <= i < |nodes| && i !in Ids(shape) ==> nodes[i] == old(nodes[i])
    {
      ghost var ns0, r0 := nodes, root;
      ghost var leaf := Node(Nil, node, nodes[node].blackness, Nil);
      RepPlug(ctx, Nil, nodes, root);
      IdsPlug(ctx, Nil);
      IdsPlug(ctx, leaf);
      WfPlug(ctx, Nil);
      assert ctx.Top? || CtxId(ctx) in CtxIds(ctx);
      Store(slot, node);
      nodes := nodes[node := nodes[node].(parent := parent)];
      nodes := nodes[node := nodes[node].(left := NIL, right := NIL)];
      AgreeExcept(ns0, nodes, CtxIds(ctx) - {CtxId(ctx)}, {node, CtxId(ctx)});
      RepReplace(ctx, Nil, leaf, ns0, r0, nodes, root);
      WfPlug(ctx, leaf);
      shape := Plug(ctx, leaf);
    }

    /** rotate_right around p: p, the left child of gp, takes gp's place, gp becomes
        p's right child and p's former right subtree becomes gp's left subtree. */
    method RotateRight(p: int, ghost ctx: Ctx, ghost t: Tree)
      requires Shaped() && shape == Plug(ctx, t) && t.Node? && t.l.Node? && t.l.id == p
      modifies this
      ensures Shaped() && shape == Plug(ctx, RotR(t))
      ensures InOrder(shape) == old(InOrder(shape)) && Ids(shape) == old(Ids(shape))
      ensures |nodes| == old(|nodes|) && value == old(value)
      ensures KeepsOutside(old(nodes), nodes, old(Ids(shape)))
    {
      ghost var ns0, r0 := nodes, root;
      HoleFacts(ctx, t, nodes, root);
      var n2 := nodes[p].right;
      var gp := nodes[p].parent;
      var gpLink, ggp := GpLink(gp, ctx, t);
      assert gp == t.id && n2 == RootId(t.l.r) && ggp == CtxId(ctx);
      assert p != gp && n2 != p && n2 != gp && ggp != p && ggp != gp && (n2 != NIL ==> n2 != ggp);
      RotRWrites(p, gp, n2, ggp, gpLink);
      RotRLinks(ctx, t.l.l, p, t.l.c, t.l.r, t.id, t.c, t.r, ns0, r0, nodes, root);
      RotFrame(ctx, t, p, gp, n2, ns0, nodes);
      RotPlug(ctx, t);
      IdsPlug(ctx, t);
      shape := Plug(ctx, RotR(t));
    }

    /** rotate_left around p: the mirror image, p being the right child of gp. */
    method RotateLeft(p: int, ghost ctx: Ctx, ghost t: Tree)
      requires Shaped() && shape == Plug(ctx, t) && t.Node? && t.r.Node? && t.r.id == p
      modifies this
      ensures Shaped() && shape == Plug(ctx, RotL(t))
      ensures InOrder(shape) == old(InOrder(shape)) && Ids(shape) == old(Ids(shape))
      ensures |nodes| == old(|nodes|) && value == old(value)
      ensures KeepsOutside(old(nodes), nodes, old(Ids(shape)))
    {
      ghost var ns0, r0 := nodes, root;
      HoleFacts(ctx, t, nodes, root);
      var n2 := nodes[p].left;
      var gp := nodes[p].parent;
      var gpLink, ggp := GpLink(gp, ctx, t);
      assert gp == t.id && n2 == RootId(t.r.l) && ggp == CtxId(ctx);
      assert p != gp && n2 != p && n2 != gp && ggp != p && ggp != gp && (n2 != NIL ==> n2 != ggp);
      RotLWrites(p, gp, n2, ggp, gpLink);
      RotLLinks(ctx, t.l, t.id, t.c, t.r.l, p, t.r.c, t.r.r, ns0, r0, nodes, root);
      RotFrame(ctx, t, p, gp, n2, ns0, nodes);
      RotPlug(ctx, t);
      IdsPlug(ctx, t);
      shape := Plug(ctx, RotL(t));
    }

    /** The first part of both rotations: the slot that holds gp (a child link of
        gp's parent ggp, or the root pointer) and ggp itself. */
    method GpLink(gp: int, ghost ctx: Ctx, ghost t: Tree) returns (gpLink: Slot, ggp: int)
      requires Shaped() && shape == Plug(ctx, t) && t.Node? && t.id == gp
      ensures ggp == CtxId(ctx) && gpLink == SlotOf(ctx) && SlotIn(gpLink, nodes)
    {
      HoleFacts(ctx, t, nodes, root);
      if nodes[gp].parent != NIL {
        var l := nodes[gp].parent;
        if nodes[l].left == gp {
          gpLink := LeftOf(l);
        } else {
          gpLink := RightOf(l);
        }
        ggp := l;
      } else {
        gpLink := RootSlot;
        ggp := NIL;
      }
    }

    /** The writes of rotate_right: p's right link gets gp, gp's left link gets n2,
        the slot of gp gets p, and the parent links of p, gp and n2 follow. */
    method RotRWrites(p: int, gp: int, n2: int, ggp: int, gpLink: Slot)
      requires 0 <= p < |nodes| && 0 <= gp < |nodes| && InArena(n2, nodes) && SlotIn(gpLink, nodes)
      requires p != gp && n2 != p && n2 != gp && (!gpLink.RootSlot? ==> gpLink.n != p && gpLink.n != gp && gpLink.n != n2)
      modifies this
      ensures |nodes| == old(|nodes|) && value == old(value) && shape == old(shape)
      ensures nodes[p] == old(nodes[p]).(right := gp, parent := ggp)
      ensures nodes[gp] == old(nodes[gp]).(left := n2, parent := p)
      ensures n2 != NIL ==> nodes[n2] == old(nodes[n2]).(parent := gp)
      ensures !gpLink.RootSlot? ==> nodes[gpLink.n] == StoreNodes(old(nodes), gpLink, p)[gpLink.n]
      ensures root == StoreRoot(old(root), gpLink, p)
      ensures forall i :: 0 <= i < |nodes| && i != p && i != gp && i != n2 && (gpLink.RootSlot? || i != gpLink.n) ==>
        nodes[i] == old(nodes[i])
    {
      nodes := nodes[p := nodes[p].(right := gp)];
      nodes := nodes[gp := nodes[gp].(left := n2)];
      Store(gpLink, p);
      nodes := nodes[p := nodes[p].(parent := ggp)];
      nodes := nodes[gp := nodes[gp].(parent := p)];
      if n2 != NIL {
        nodes := nodes[n2 := nodes[n2].(parent := gp)];
      }
    }

    /** The writes of rotate_left, the mirror image. */
    method RotLWrites(p: int, gp: int, n2: int, ggp: int, gpLink: Slot)
      requires 0 <= p < |nodes| && 0 <= gp < |nodes| && InArena(n2, nodes) && SlotIn(gpLink, nodes)
      requires p != gp && n2 != p && n2 != gp && (!gpLink.RootSlot? ==> gpLink.n != p && gpLink.n != gp && gpLink.n != n2)
      modifies this
      ensures |nodes| == old(|nodes|) && value == old(value) && shape == old(shape)
      ensures nodes[p] == old(nodes[p]).(left := gp, parent := ggp)
      ensures nodes[gp] == old(nodes[gp]).(right := n2, parent := p)
      ensures n2 != NIL ==> nodes[n2] == old(nodes[n2]).(parent := gp)
      ensures !gpLink.RootSlot? ==> nodes[gpLink.n] == StoreNodes(old(nodes), gpLink, p)[gpLink.n]
      ensures root == StoreRoot(old(root), gpLink, p)
      ensures forall i :: 0 <= i < |nodes| && i != p && i != gp && i != n2 && (gpLink.RootSlot? || i != gpLink.n) ==>
        nodes[i] == old(nodes[i])
    {
      nodes := nodes[p := nodes[p].(left := gp)];
      nodes := nodes[gp := nodes[gp].(right := n2)];
      Store(gpLink, p);
      nodes := nodes[p := nodes[p].(parent := ggp)];
      nodes := nodes[gp := nodes[gp].(parent := p)];
      if n2 != NIL {
        nodes := nodes[n2 := nodes[n2].(parent := gp)];
      }
    }

    /** rb_insert_color: `node`, just linked as a leaf below the tree of `ctx` (which
        obeys the red-black rules), is painted RED and the rules are restored by
        rotations and recolourings on the way up. No node moves in order. */
    method InsertColor(node: int, ghost ctx: Ctx, ghost c0: int)
      requires Shaped() && shape == Plug(ctx, Node(Nil, node, c0, Nil)) && RedBlack(Plug(ctx, Nil))
      modifies this
      ensures Valid()
      ensures InOrder(shape) == old(InOrder(shape)) && Ids(shape) == old(Ids(shape))
      ensures |nodes| == old(|nodes|) && value == old(value)
      ensures KeepsOutside(old(nodes), nodes, old(Ids(shape)))
    {
      ghost var cx, sub := ctx, Node(Nil, node, RED, Nil);
      SetBlackness(node, RED, ctx, Node(Nil, node, c0, Nil));
      InsStart(ctx, node);
      ParentFacts(cx, sub, nodes, root);
      var n := node;
      ghost var order, ids := InOrder(shape), Ids(shape);
      while nodes[n].parent != NIL && nodes[nodes[n].parent].blackness == RED
        invariant Shaped() && shape == Plug(cx, sub) && InsInv(cx, sub) && sub.id == n
        invariant 0 <= n < |nodes| && nodes[n].parent == CtxId(cx)
        invariant !cx.Top? ==> 0 <= cx.id < |nodes| && nodes[cx.id].blackness == cx.c
        invariant KeepsOutside(old(nodes), nodes, old(Ids(shape)))
        invariant InOrder(shape) == order && Ids(shape) == ids
        invariant |nodes| == old(|nodes|) && value == old(value)
        decreases InsMeasure(cx)
      {
        n, cx, sub := InsertStep(n, cx, sub);
        ParentFacts(cx, sub, nodes, root);
      }
      InsExit(cx, sub);
      if nodes[n].parent == NIL {
        SetBlackness(n, BLACK, cx, sub);
      }
    }

    /** One pass of rb_insert_color's loop: node and its parent p are both RED, so
        p has a BLACK parent gp. Same side: p is rotated up and node painted BLACK;
        zig-zag: node is rotated up. Either way the loop goes on at p. */
    method InsertStep(node: int, ghost ctx: Ctx, ghost sub: Tree) returns (next: int, ghost ctx': Ctx, ghost sub': Tree)
      requires Shaped() && shape == Plug(ctx, sub) && InsInv(ctx, sub) && sub.id == node
      requires !ctx.Top? && ctx.c == RED
      modifies this
      ensures Shaped() && shape == Plug(ctx', sub') && InsInv(ctx', sub') && sub'.id == next
      ensures InsMeasure(ctx') < InsMeasure(ctx)
      ensures InOrder(shape) == old(InOrder(shape)) && Ids(shape) == old(Ids(shape))
      ensures |nodes| == old(|nodes|) && value == old(value)
      ensures KeepsOutside(old(nodes), nodes, old(Ids(shape)))
    {
      assert !ctx.up.Top?;
      var p, gp := GetPGp(node, ctx, sub);
      Grandparent(ctx, sub, nodes, root);
      var pLeft := p == nodes[gp].left;
      var nodeLeft := node == nodes[p].left;
      if pLeft {
        if nodeLeft {
          ghost var t := Up1(ctx.up, Up1(ctx, sub));
          RotateRight(p, ctx.up.up, t);
          SetBlackness(node, BLACK, InL(ctx.up.up, p, RED, Node(ctx.r, gp, t.c, t.r)), sub);
          InsLeftLeft(ctx.up.up, gp, t.c, t.r, p, ctx.r, sub);
          ctx', sub' := ctx.up.up, Node(Paint(sub, BLACK), p, RED, Node(ctx.r, gp, t.c, t.r));
        } else {
          RotateLeft(node, ctx.up, Up1(ctx, sub));
          InsLeftRight(ctx.up.up, gp, ctx.up.c, ctx.up.r, p, ctx.l, sub);
          ctx', sub' := InL(ctx.up, sub.id, RED, sub.r), Node(ctx.l, p, RED, sub.l);
        }
      } else {
        if !nodeLeft {
          ghost var t := Up1(ctx.up, Up1(ctx, sub));
          RotateLeft(p, ctx.up.up, t);
          SetBlackness(node, BLACK, InR(Node(t.l, gp, t.c, ctx.l), p, RED, ctx.up.up), sub);
          InsRightRight(ctx.up.up, gp, t.c, t.l, p, ctx.l, sub);
          ctx', sub' := ctx.up.up, Node(Node(t.l, gp, t.c, ctx.l), p, RED, Paint(sub, BLACK));
        } else {
          RotateRight(node, ctx.up, Up1(ctx, sub));
          InsRightLeft(ctx.up.up, gp, ctx.up.c, ctx.up.l, p, ctx.r, sub);
          ctx', sub' := InR(sub.l, sub.id, RED, ctx.up), Node(sub.r, p, RED, ctx.r);
        }
      }
      next := p;
    }

    /** is_leaf: the node has neither child. */
    method IsLeaf(node: int, ghost ctx: Ctx, ghost t: Tree) returns (r: bool)
      requires Shaped() && shape == Plug(ctx, t) && t.Node? && t.id == node
      ensures r <==> t.l.Nil? && t.r.Nil?
    {
      RepPlug(ctx, t, nodes, root);
      r := nodes[node].left == NIL && nodes[node].right == NIL;
    }

    /** least_greater: the leftmost node of the right subtree of `parent`, NIL when
        there is no right child; it is the node that follows `parent` in order. */
    method LeastGreater(parent: int, ghost ctx: Ctx, ghost t: Tree) returns (r: int)
      requires Shaped() && shape == Plug(ctx, t) && t.Node? && t.id == parent
      ensures r == NIL <==> t.r.Nil?
      ensures t.r.Node? ==> r == LeftNode(t.r).id && r in Ids(t.r)
      ensures t.r.Node? ==> var S := InOrder(shape);
        Pos(ctx, t) + 1 < |S| && S[Pos(ctx, t)] == parent && S[Pos(ctx, t) + 1] == r
    {
      RepPlug(ctx, t, nodes, root);
      var node := nodes[parent].right;
      if node == NIL {
        return NIL;
      }
      ghost var u, pu := t.r, parent;
      while nodes[node].left != NIL
        invariant u.Node? && u.id == node && Linked(u, pu, nodes)
        invariant LeftNode(u) == LeftNode(t.r)
        decreases Size(u)
      {
        pu := node;
        node := nodes[node].left;
        u := u.l;
      }
      SuccessorAt(ctx, t);
      r := node;
    }

    /** greatest_lesser: the rightmost node of the left subtree of `parent`, NIL when
        there is no left child; it is the node that precedes `parent` in order. */
    method GreatestLesser(parent: int, ghost ctx: Ctx, ghost t: Tree) returns (r: int)
      requires Shaped() && shape == Plug(ctx, t) && t.Node? && t.id == parent
      ensures r == NIL <==> t.l.Nil?
      ensures t.l.Node? ==> r == RightNode(t.l).id && r in Ids(t.l)
      ensures t.l.Node? ==> var S := InOrder(shape);
        1 <= Pos(ctx, t) < |S| && S[Pos(ctx, t)] == parent && S[Pos(ctx, t) - 1] == r
    {
      RepPlug(ctx, t, nodes, root);
      var node := nodes[parent].left;
      if node == NIL {
        return NIL;
      }
      ghost var u, pu := t.l, parent;
      while nodes[node].right != NIL
        invariant u.Node? && u.id == node && Linked(u, pu, nodes)
        invariant RightNode(u) == RightNode(t.l)
        decreases Size(u)
      {
        pu := node;
        node := nodes[node].right;
        u := u.r;
      }
      PredecessorAt(ctx, t);
      r := node;
    }

    /** rb_del: `node` leaves the tree. The node set loses exactly `node`, the other
        nodes keep their in-order sequence, and the red-black rules hold again.
        First node is swapped down with its in-order neighbour until it is a leaf;
        a RED leaf is then unlinked at once, a BLACK one is made DOUBLE_BLACK and
        the fixup loop pushes that extra black up or away before the unlink. */
    method RbDel(node: int)
      requires Valid() && node in Ids(shape)
      modifies this
      ensures Valid()
      ensures Ids(shape) == old(Ids(shape)) - {node}
      ensures InOrder(shape) == Without(old(InOrder(shape)), node)
      ensures old(Ids(shape)) == {node} ==> root == NIL
      ensures |nodes| == old(|nodes|) && value == old(value)
      ensures KeepsOutside(old(nodes), nodes, old(Ids(shape)))
      ensures forall C :: old(shape) == Plug(C, Node(Nil, node, RED, Nil)) ==> shape == Plug(C, Nil)
    {
      ghost var s0 := shape;
      ghost var ctx, t := SwapDown(node);
      HoleFacts(ctx, t, nodes, root);
      ColorsPlug(ctx, t, NIL);
      ghost var P, leaf := ctx, t;
      if nodes[node].blackness != RED {
        P := FixDoubleBlack(node, ctx);
        leaf := Node(Nil, node, BLACK, Nil);
      } else {
        RemoveRedLeaf(ctx, node);
      }
      Unlink(node, P, leaf);
      forall C | s0 == Plug(C, Node(Nil, node, RED, Nil))
        ensures shape == Plug(C, Nil)
      {
        PathToUnique(C, Node(Nil, node, RED, Nil));
      }
    }

    /** rb_del's first loop: while `node` has a child, it exchanges places (and
        colours) with its in-order successor, or its predecessor when it has no right
        child. Afterwards it is a leaf; the tree still obeys the rules, holds the same
        ids, and with `node` set aside has the same in-order sequence. */
    method SwapDown(node: int) returns (ghost ctx: Ctx, ghost t: Tree)
      requires Valid() && node in Ids(shape)
      modifies this
      ensures Valid() && shape == Plug(ctx, t) && t.Node? && t.id == node && t.l.Nil? && t.r.Nil?
      ensures Ids(shape) == old(Ids(shape))
      ensures Without(InOrder(shape), node) == Without(old(InOrder(shape)), node)
      ensures |nodes| == old(|nodes|) && value == old(value)
      ensures KeepsOutside(old(nodes), nodes, old(Ids(shape)))
      ensures old(SubAt(shape, node)).Node? && old(SubAt(shape, node)).l.Nil? && old(SubAt(shape, node)).r.Nil? ==>
        shape == old(shape) && nodes == old(nodes) && ctx == old(PathTo(shape, node)) && t == old(SubAt(shape, node))
    {
      PathToPlug(shape, node);
      ctx, t := PathTo(shape, node), SubAt(shape, node);
      var leaf := IsLeaf(node, ctx, t);
      ghost var wasLeaf := leaf;
      while !leaf
        invariant wasLeaf ==>
          leaf && shape == old(shape) && nodes == old(nodes) && ctx == old(PathTo(shape, node)) && t == old(SubAt(shape, node))
        invariant !wasLeaf ==> !(old(SubAt(shape, node)).Node? && old(SubAt(shape, node)).l.Nil? && old(SubAt(shape, node)).r.Nil?)
        invariant Valid() && shape == Plug(ctx, t) && t.Node? && t.id == node
        invariant leaf <==> t.l.Nil? && t.r.Nil?
        invariant KeepsOutside(old(nodes), nodes, old(Ids(shape)))
        invariant Ids(shape) == old(Ids(shape))
        invariant Without(InOrder(shape), node) == Without(old(InOrder(shape)), node)
        invariant |nodes| == old(|nodes|) && value == old(value)
        decreases Size(t)
      {
        HoleFacts(ctx, t, nodes, root);
        IdsPlug(ctx, t);
        var successor;
        if nodes[node].right != NIL {
          successor := LeastGreater(node, ctx, t);
        } else {
          successor := GreatestLesser(node, ctx, t);
        }
        ghost var t0 := shape;
        SwapNodes(node, successor);
        SwapRedBlack(t0, node, successor);
        SwapIdsSame(t0, node, successor);
        if t.r.Node? {
          SwapSuccessor(ctx, t);
          ghost var L := LeftNode(t.r);
          ctx, t := Compose(InR(t.l, L.id, t.c, ctx), LeftPath(t.r)), Node(Nil, node, L.c, L.r);
        } else {
          SwapPredecessor(ctx, t);
          ghost var R := RightNode(t.l);
          ctx, t := Compose(InL(ctx, R.id, t.c, t.r), RightPath(t.l)), Node(R.l, node, R.c, Nil);
        }
        leaf := IsLeaf(node, ctx, t);
      }
    }

    /** The fixup of rb_del for a BLACK leaf `node`: it is painted DOUBLE_BLACK and the
        loop runs while current is DOUBLE_BLACK and has a parent; a parentless current
        is then painted BLACK. Counting `node` as already removed, the tree obeys the
        rules; `node` is again a BLACK leaf, and without it the tree is red-black. */
    method FixDoubleBlack(node: int, ghost ctx: Ctx) returns (ghost P: Ctx)
      requires Shaped() && shape == Plug(ctx, Node(Nil, node, BLACK, Nil)) && RedBlack(shape)
      modifies this
      ensures Shaped() && shape == Plug(P, Node(Nil, node, BLACK, Nil))
      ensures node !in CtxIds(P) && RedBlack(Plug(P, Nil))
      ensures InOrder(shape) == old(InOrder(shape)) && Ids(shape) == old(Ids(shape))
      ensures |nodes| == old(|nodes|) && value == old(value)
      ensures KeepsOutside(old(nodes), nodes, old(Ids(shape)))
    {
      ghost var x, leaf := node, Node(Nil, node, BLACK, Nil);
      HoleFacts(ctx, leaf, nodes, root);
      WfPlug(ctx, leaf);
      SetBlackness(node, DOUBLE_BLACK, ctx, leaf);
      DelStart(ctx, x);
      ghost var cx, sub := ctx, Node(Nil, node, DOUBLE_BLACK, Nil);
      var current := node;
      HoleFacts(cx, sub, nodes, root);
      while nodes[current].blackness == DOUBLE_BLACK && nodes[current].parent != NIL
        invariant Shaped() && shape == Plug(cx, sub) && DelInv(cx, sub, x) && XLeaf(sub, x)
        invariant sub.id == current && 0 <= current < |nodes|
        invariant nodes[current].blackness == sub.c && nodes[current].parent == CtxId(cx)
        invariant KeepsOutside(old(nodes), nodes, old(Ids(shape)))
        invariant InOrder(shape) == old(InOrder(shape)) && Ids(shape) == old(Ids(shape))
        invariant |nodes| == old(|nodes|) && value == old(value)
        decreases DelMeasure(cx, sub)
      {
        current, cx, sub := FixupStep(current, cx, sub, x);
        HoleFacts(cx, sub, nodes, root);
      }
      HoleFacts(cx, sub, nodes, root);
      if nodes[current].parent == NIL {
        SetBlackness(current, BLACK, cx, sub);
      }
      DelFinish(cx, sub, x);
      P := PathTo(shape, x);
    }

    /** The unlink that ends rb_del: the slot holding the leaf `node` (its parent's
        left or right link, or the root pointer) is set to NULL. */
    method Unlink(node: int, ghost ctx: Ctx, ghost t: Tree)
      requires Shaped() && shape == Plug(ctx, t) && t.Node? && t.id == node && t.l.Nil? && t.r.Nil?
      modifies this
      ensures Shaped() && shape == Plug(ctx, Nil)
      ensures Ids(shape) == old(Ids(shape)) - {node}
      ensures InOrder(shape) == Without(old(InOrder(shape)), node)
      ensures |nodes| == old(|nodes|) && value == old(value)
      ensures KeepsOutside(old(nodes), nodes, old(Ids(shape)))
    {
      ghost var ns0, r0 := nodes, root;
      HoleFacts(ctx, t, nodes, root);
      WfPlug(ctx, t);
      WfPlug(ctx, Nil);
      IdsPlug(ctx, t);
      IdsPlug(ctx, Nil);
      var pnode := RootSlot;
      var parent := nodes[node].parent;
      if parent != NIL {
        pnode := if node == nodes[parent].left then LeftOf(parent) else RightOf(parent);
      }
      Store(pnode, NIL);
      AgreeExcept(ns0, nodes, CtxIds(ctx) - {CtxId(ctx)}, {CtxId(ctx)});
      RepReplace(ctx, t, Nil, ns0, r0, nodes, root);
      assert InOrder(Plug(ctx, Nil)) == Without(InOrder(Plug(ctx, t)), node) by {
        assert InOrder(t) == [node];
        WithoutOne(node, node);
        WithoutPlug(ctx, t, Nil, node);
      }
      shape := Plug(ctx, Nil);
    }

    /** One pass of rb_del's fixup loop, for a DOUBLE_BLACK current below a parent.
        With a BLACK sibling: Case 3 when both its children are BLACK (after which
        the tests of the right-hand mirror run on the stale cl and cr and fail), then
        Case 5 and Case 6 on the side of current (after Case 5 the Case 6 test reads
        the stale cr and fails; Case 6 follows on the next pass). With a RED sibling:
        Case 4. The fixup invariant holds again, with a smaller measure. */
    method FixupStep(current: int, ghost ctx: Ctx, ghost sub: Tree, ghost x: int)
        returns (next: int, ghost ctx': Ctx, ghost sub': Tree)
      requires Shaped() && shape == Plug(ctx, sub) && DelInv(ctx, sub, x) && XLeaf(sub, x)
      requires sub.id == current && sub.c == DOUBLE_BLACK && !ctx.Top?
      modifies this
      ensures Shaped() && shape == Plug(ctx', sub') && DelInv(ctx', sub', x) && XLeaf(sub', x)
      ensures sub'.id == next && DelMeasure(ctx', sub') < DelMeasure(ctx, sub)
      ensures InOrder(shape) == old(InOrder(shape)) && Ids(shape) == old(Ids(shape))
      ensures |nodes| == old(|nodes|) && value == old(value)
      ensures KeepsOutside(old(nodes), nodes, old(Ids(shape)))
    {
      var p, s, cl, cr := GetPSClCr(current, ctx, sub);
      DelSibling(ctx, sub, x);
      FamilyFacts(ctx, sub, nodes, root);
      if nodes[s].blackness == BLACK {
        next, ctx', sub' := BlackSibling(current, p, s, cl, cr, ctx, sub, x);
      } else {
        ctx' := Case4(current, p, s, ctx, sub, x);
        next, sub' := current, sub;
      }
    }

    /** The passes with a BLACK sibling s: Case 3, or Case 5 and/or Case 6 on the side
        of current, as the colours of cl and cr (the children of s) decide. */
    method BlackSibling(current: int, p: int, s: int, cl: int, cr: int, ghost ctx: Ctx, ghost sub: Tree, ghost x: int)
        returns (next: int, ghost ctx': Ctx, ghost sub': Tree)
      requires Shaped() && shape == Plug(ctx, sub) && DelInv(ctx, sub, x) && XLeaf(sub, x)
      requires sub.id == current && sub.c == DOUBLE_BLACK && !ctx.Top? && p == ctx.id
      requires Sibling(ctx).Node? && Sibling(ctx).id == s && Sibling(ctx).c == BLACK
      requires cl == RootId(Sibling(ctx).l) && cr == RootId(Sibling(ctx).r)
      modifies this
      ensures Shaped() && shape == Plug(ctx', sub') && DelInv(ctx', sub', x) && XLeaf(sub', x)
      ensures sub'.id == next && DelMeasure(ctx', sub') < DelMeasure(ctx, sub)
      ensures InOrder(shape) == old(InOrder(shape)) && Ids(shape) == old(Ids(shape))
      ensures |nodes| == old(|nodes|) && value == old(value)
      ensures KeepsOutside(old(nodes), nodes, old(Ids(shape)))
    {
      DelSibling(ctx, sub, x);
      FamilyFacts(ctx, sub, nodes, root);
      next, ctx', sub' := current, ctx, sub;
      if (cl == NIL || nodes[cl].blackness == BLACK) && (cr == NIL || nodes[cr].blackness == BLACK) {
        next, ctx', sub' := Case3(current, p, s, cl, cr, ctx, sub, x);
      }
      if next == nodes[p].left {
        ctx', sub' := LeftSide(next, p, s, cl, cr, ctx', sub', x);
      } else {
        ctx', sub' := RightSide(next, p, s, cl, cr, ctx', sub', x);
      }
    }

    /** Neither cl nor cr is a RED node. */
    ghost predicate NoneRed(cl: int, cr: int)
      reads this
    {
      NoRedAt(nodes, cl) && NoRedAt(nodes, cr)
    }

    /** The left-hand mirror of Cases 5 and 6 (current is the left child of p and s
        its right sibling, one of whose children is RED). Its tests read cl and cr,
        which Case 5 does not update: after Case 5 the Case 6 test fails. */
    method LeftSide(current: int, p: int, s: int, cl: int, cr: int, ghost ctx: Ctx, ghost sub: Tree, ghost x: int)
        returns (ghost ctx': Ctx, ghost sub': Tree)
      requires Shaped() && shape == Plug(ctx, sub) && DelInv(ctx, sub, x) && XLeaf(sub, x) && sub.id == current
      requires sub.c == DOUBLE_BLACK && ctx.InL? && p == ctx.id
      requires ctx.r.Node? && ctx.r.id == s && ctx.r.c == BLACK
      requires cl == RootId(ctx.r.l) && cr == RootId(ctx.r.r) && (Red(ctx.r.l) || Red(ctx.r.r))
      modifies this
      ensures Shaped() && shape == Plug(ctx', sub') && DelInv(ctx', sub', x) && XLeaf(sub', x) && sub'.id == current
      ensures DelMeasure(ctx', sub') < DelMeasure(ctx, sub)
      ensures InOrder(shape) == old(InOrder(shape)) && Ids(shape) == old(Ids(shape))
      ensures |nodes| == old(|nodes|) && value == old(value)
      ensures KeepsOutside(old(nodes), nodes, old(Ids(shape)))
    {
      DelSibling(ctx, sub, x);
      FamilyFacts(ctx, sub, nodes, root);
      ctx', sub' := ctx, sub;
      if (cr == NIL || nodes[cr].blackness == BLACK) && cl != NIL && nodes[cl].blackness == RED {
        ctx' := Case5L(current, p, s, cl, ctx, sub, x);
      }
      if cr != NIL && nodes[cr].blackness == RED {
        ctx', sub' := Case6L(current, p, s, cr, ctx', sub', x);
      }
    }

    /** The right-hand mirror of Cases 5 and 6. It also runs right after Case 3, with
        current moved up to p and the stale cl and cr, neither of them RED: then
        neither test passes and nothing changes. */
    method RightSide(current: int, p: int, s: int, cl: int, cr: int, ghost ctx: Ctx, ghost sub: Tree, ghost x: int)
        returns (ghost ctx': Ctx, ghost sub': Tree)
      requires Shaped() && shape == Plug(ctx, sub) && DelInv(ctx, sub, x) && XLeaf(sub, x) && sub.id == current
      requires NoneRed(cl, cr) ||
        (sub.c == DOUBLE_BLACK && ctx.InR? && p == ctx.id && ctx.l.Node? && ctx.l.id == s && ctx.l.c == BLACK &&
         cl == RootId(ctx.l.l) && cr == RootId(ctx.l.r) && (Red(ctx.l.l) || Red(ctx.l.r)))
      modifies this
      ensures Shaped() && shape == Plug(ctx', sub') && DelInv(ctx', sub', x) && XLeaf(sub', x) && sub'.id == current
      ensures old(NoneRed(cl, cr)) ==> ctx' == ctx && sub' == sub
      ensures !old(NoneRed(cl, cr)) ==> DelMeasure(ctx', sub') < DelMeasure(ctx, sub)
      ensures InOrder(shape) == old(InOrder(shape)) && Ids(shape) == old(Ids(shape))
      ensures |nodes| == old(|nodes|) && value == old(value)
      ensures KeepsOutside(old(nodes), nodes, old(Ids(shape)))
    {
      ctx', sub' := ctx, sub;
      if !NoneRed(cl, cr) {
        DelSibling(ctx, sub, x);
        FamilyFacts(ctx, sub, nodes, root);
      }
      if (cl == NIL || nodes[cl].blackness == BLACK) && cr != NIL && nodes[cr].blackness == RED {
        ctx' := Case5R(current, p, s, cr, ctx, sub, x);
      }
      if cl != NIL && nodes[cl].blackness == RED {
        ctx', sub' := Case6R(current, p, s, cl, ctx', sub', x);
      }
    }

    /** get_p_s_cl_cr: the parent p and the sibling s of `node`, and the children cl
        and cr of s. rbt.c leaves cl and cr unset when s is NULL; here they are NIL. */
    method GetPSClCr(node: int, ghost ctx: Ctx, ghost t: Tree) returns (p: int, s: int, cl: int, cr: int)
      requires Shaped() && shape == Plug(ctx, t) && t.Node? && t.id == node
      ensures p == CtxId(ctx)
      ensures s == if ctx.Top? then NIL else RootId(Sibling(ctx))
      ensures cl == if s == NIL then NIL else RootId(Sibling(ctx).l)
      ensures cr == if s == NIL then NIL else RootId(Sibling(ctx).r)
    {
      HoleFacts(ctx, t, nodes, root);
      p := nodes[node].parent;
      if p != NIL {
        FamilyFacts(ctx, t, nodes, root);
        if node == nodes[p].left {
          s := nodes[p].right;
        } else {
          s := nodes[p].left;
        }
      } else {
        s := NIL;
      }
      cl, cr := NIL, NIL;
      if s != NIL {
        cl := nodes[s].left;
        cr := nodes[s].right;
      }
    }

    /** Case 3 of rb_del's fixup (s and both its children BLACK): p takes one more
        black, s turns RED and current BLACK, and the double black moves up to p. */
    method Case3(current: int, p: int, s: int, cl: int, cr: int, ghost ctx: Ctx, ghost sub: Tree, ghost x: int)
        returns (next: int, ghost ctx': Ctx, ghost sub': Tree)
      requires Shaped() && shape == Plug(ctx, sub) && DelInv(ctx, sub, x) && XLeaf(sub, x)
      requires sub.id == current && sub.c == DOUBLE_BLACK && !ctx.Top? && p == ctx.id
      requires Sibling(ctx).Node? && Sibling(ctx).id == s && Sibling(ctx).c == BLACK
      requires !Red(Sibling(ctx).l) && !Red(Sibling(ctx).r)
      requires cl == RootId(Sibling(ctx).l) && cr == RootId(Sibling(ctx).r)
      modifies this
      ensures Shaped() && shape == Plug(ctx', sub') && DelInv(ctx', sub', x) && XLeaf(sub', x)
      ensures next == p && sub'.id == next && ctx' == ctx.up
      ensures sub' == if ctx.InL? then Node(Paint(sub, BLACK), p, ctx.c + 1, Paint(Sibling(ctx), RED))
                      else Node(Paint(Sibling(ctx), RED), p, ctx.c + 1, Paint(sub, BLACK))
      ensures DelMeasure(ctx', sub') < DelMeasure(ctx, sub)
      ensures InOrder(shape) == old(InOrder(shape)) && Ids(shape) == old(Ids(shape))
      ensures Recoloured(old(nodes), nodes, {p, s, current}) && root == old(root) && value == old(value)
      ensures NoneRed(cl, cr)
      ensures KeepsOutside(old(nodes), nodes, old(Ids(shape)))
    {
      FamilyFacts(ctx, sub, nodes, root);
      ghost var sib := Sibling(ctx);
      ghost var ns0, S := nodes, {p, s, current};
      assert NoRedAt(ns0, cl) && NoRedAt(ns0, cr) && cl !in S && cr !in S;
      Case3Writes(current, p, s, ctx, sub);
      next := p;
      ctx' := ctx.up;
      if ctx.InL? {
        DelCase3L(ctx.up, p, ctx.c, sub, sib.l, s, sib.r, x);
        sub' := Node(Paint(sub, BLACK), p, ctx.c + 1, Paint(sib, RED));
      } else {
        DelCase3R(ctx.up, p, ctx.c, sub, sib.l, s, sib.r, x);
        sub' := Node(Paint(sib, RED), p, ctx.c + 1, Paint(sub, BLACK));
      }
      XLeafGrow(sub, x, sub');
      RecolouredNoRed(ns0, nodes, S, cl);
      RecolouredNoRed(ns0, nodes, S, cr);
    }

    /** The writes of Case 3: `p->blackness++`, `s->blackness = RB_RED` (s is never
        NULL here) and `current->blackness = RB_BLACK`. */
    method Case3Writes(current: int, p: int, s: int, ghost ctx: Ctx, ghost sub: Tree)
      requires Shaped() && shape == Plug(ctx, sub) && sub.Node? && sub.id == current && !ctx.Top? && p == ctx.id
      requires Sibling(ctx).Node? && Sibling(ctx).id == s
      modifies this
      ensures Shaped()
      ensures shape == Plug(ctx.up, if ctx.InL? then Node(Paint(sub, BLACK), p, ctx.c + 1, Paint(Sibling(ctx), RED))
                                    else Node(Paint(Sibling(ctx), RED), p, ctx.c + 1, Paint(sub, BLACK)))
      ensures InOrder(shape) == old(InOrder(shape)) && Ids(shape) == old(Ids(shape))
      ensures Recoloured(old(nodes), nodes, {p, s, current}) && root == old(root) && value == old(value)
      ensures KeepsOutside(old(nodes), nodes, old(Ids(shape)))
    {
      FamilyFacts(ctx, sub, nodes, root);
      ghost var sib := Sibling(ctx);
      ghost var c1 := ctx.c + 1;
      ghost var ns0, S := nodes, {p, s, current};
      assert Recoloured(ns0, nodes, S);
      SetBlackness(p, nodes[p].blackness + 1, ctx.up, Up1(ctx, sub));
      RecolourMore(ns0, old(nodes), S, p, c1);
      if s != NIL {
        ghost var ns1 := nodes;
        SetBlackness(s, RED, if ctx.InL? then InR(sub, p, c1, ctx.up) else InL(ctx.up, p, c1, sub), sib);
        RecolourMore(ns0, ns1, S, s, RED);
      }
      ghost var ns2 := nodes;
      SetBlackness(current, BLACK,
        if ctx.InL? then InL(ctx.up, p, c1, Paint(sib, RED)) else InR(Paint(sib, RED), p, c1, ctx.up), sub);
      RecolourMore(ns0, ns2, S, current, BLACK);
    }

    /** Case 4 (s RED): p turns RED and s BLACK, and s is rotated up; current keeps
        its double black under a RED parent and a BLACK sibling. */
    method Case4(current: int, p: int, s: int, ghost ctx: Ctx, ghost sub: Tree, ghost x: int)
        returns (ghost ctx': Ctx)
      requires Shaped() && shape == Plug(ctx, sub) && DelInv(ctx, sub, x)
      requires sub.id == current && sub.c == DOUBLE_BLACK && !ctx.Top? && p == ctx.id
      requires Sibling(ctx).Node? && Sibling(ctx).id == s && Sibling(ctx).c == RED
      modifies this
      ensures Shaped() && shape == Plug(ctx', sub) && DelInv(ctx', sub, x)
      ensures ctx.InL? ==> ctx' == InL(InL(ctx.up, s, BLACK, ctx.r.r), p, RED, ctx.r.l)
      ensures ctx.InR? ==> ctx' == InR(ctx.l.r, p, RED, InR(ctx.l.l, s, BLACK, ctx.up))
      ensures DelMeasure(ctx', sub) < DelMeasure(ctx, sub)
      ensures InOrder(shape) == old(InOrder(shape)) && Ids(shape) == old(Ids(shape))
      ensures |nodes| == old(|nodes|) && value == old(value)
      ensures KeepsOutside(old(nodes), nodes, old(Ids(shape)))
    {
      FamilyFacts(ctx, sub, nodes, root);
      ghost var sib := Sibling(ctx);
      SetBlackness(p, RED, ctx.up, Up1(ctx, sub));
      SetBlackness(s, BLACK, if ctx.InL? then InR(sub, p, RED, ctx.up) else InL(ctx.up, p, RED, sub), sib);
      if s == nodes[p].left {
        RotateRight(s, ctx.up, Node(Paint(sib, BLACK), p, RED, sub));
        DelCase4R(ctx.up, p, ctx.c, sub, sib.l, s, sib.r, x);
        ctx' := InR(sib.r, p, RED, InR(sib.l, s, BLACK, ctx.up));
      } else {
        RotateLeft(s, ctx.up, Node(sub, p, RED, Paint(sib, BLACK)));
        DelCase4L(ctx.up, p, ctx.c, sub, sib.l, s, sib.r, x);
        ctx' := InL(InL(ctx.up, s, BLACK, sib.r), p, RED, sib.l);
      }
    }

    /** Case 5, current on the left (s BLACK, its near child cl RED, its far child
        BLACK or nil): cl turns BLACK, s RED, and cl is rotated up to be the new
        sibling, whose far child s is now RED. The far child of the old s keeps its colour. */
    method Case5L(current: int, p: int, s: int, cl: int, ghost ctx: Ctx, ghost sub: Tree, ghost x: int)
        returns (ghost ctx': Ctx)
      requires Shaped() && shape == Plug(ctx, sub) && DelInv(ctx, sub, x)
      requires sub.id == current && sub.c == DOUBLE_BLACK && ctx.InL? && p == ctx.id
      requires ctx.r.Node? && ctx.r.id == s && ctx.r.c == BLACK
      requires Red(ctx.r.l) && ctx.r.l.id == cl && !Red(ctx.r.r)
      modifies this
      ensures Shaped() && shape == Plug(ctx', sub) && DelInv(ctx', sub, x)
      ensures ctx' == InL(ctx.up, p, ctx.c, Node(ctx.r.l.l, cl, BLACK, Node(ctx.r.l.r, s, RED, ctx.r.r)))
      ensures DelMeasure(ctx', sub) < DelMeasure(ctx, sub)
      ensures InOrder(shape) == old(InOrder(shape)) && Ids(shape) == old(Ids(shape))
      ensures |nodes| == old(|nodes|) && value == old(value)
      ensures ctx.r.r.Node? ==> 0 <= ctx.r.r.id < |nodes| && nodes[ctx.r.r.id].blackness == ctx.r.r.c
      ensures KeepsOutside(old(nodes), nodes, old(Ids(shape)))
    {
      ghost var sib, near, far := ctx.r, ctx.r.l, ctx.r.r;
      ghost var c0 := InR(sub, p, ctx.c, ctx.up);
      SetBlackness(cl, BLACK, InL(c0, s, BLACK, far), near);
      SetBlackness(s, RED, c0, Node(Paint(near, BLACK), s, BLACK, far));
      RotateRight(cl, c0, Node(Paint(near, BLACK), s, RED, far));
      DelCase5L(ctx.up, p, ctx.c, sub, near.l, cl, near.r, s, far, x);
      ctx' := InL(ctx.up, p, ctx.c, Node(near.l, cl, BLACK, Node(near.r, s, RED, far)));
      HoleFacts(InR(near.l, cl, BLACK, c0), Node(near.r, s, RED, far), nodes, root);
    }

    /** Case 5, current on the right: the mirror image, with cr rotated up. */
    method Case5R(current: int, p: int, s: int, cr: int, ghost ctx: Ctx, ghost sub: Tree, ghost x: int)
        returns (ghost ctx': Ctx)
      requires Shaped() && shape == Plug(ctx, sub) && DelInv(ctx, sub, x)
      requires sub.id == current && sub.c == DOUBLE_BLACK && ctx.InR? && p == ctx.id
      requires ctx.l.Node? && ctx.l.id == s && ctx.l.c == BLACK
      requires Red(ctx.l.r) && ctx.l.r.id == cr && !Red(ctx.l.l)
      modifies this
      ensures Shaped() && shape == Plug(ctx', sub) && DelInv(ctx', sub, x)
      ensures ctx' == InR(Node(Node(ctx.l.l, s, RED, ctx.l.r.l), cr, BLACK, ctx.l.r.r), p, ctx.c, ctx.up)
      ensures DelMeasure(ctx', sub) < DelMeasure(ctx, sub)
      ensures InOrder(shape) == old(InOrder(shape)) && Ids(shape) == old(Ids(shape))
      ensures |nodes| == old(|nodes|) && value == old(value)
      ensures ctx.l.l.Node? ==> 0 <= ctx.l.l.id < |nodes| && nodes[ctx.l.l.id].blackness == ctx.l.l.c
      ensures KeepsOutside(old(nodes), nodes, old(Ids(shape)))
    {
      ghost var sib, near, far := ctx.l, ctx.l.r, ctx.l.l;
      ghost var c0 := InL(ctx.up, p, ctx.c, sub);
      SetBlackness(cr, BLACK, InR(far, s, BLACK, c0), near);
      SetBlackness(s, RED, c0, Node(far, s, BLACK, Paint(near, BLACK)));
      RotateLeft(cr, c0, Node(far, s, RED, Paint(near, BLACK)));
      DelCase5R(ctx.up, p, ctx.c, sub, far, s, near.l, cr, near.r, x);
      ctx' := InR(Node(Node(far, s, RED, near.l), cr, BLACK, near.r), p, ctx.c, ctx.up);
      HoleFacts(InL(c0, cr, BLACK, near.r), Node(far, s, RED, near.l), nodes, root);
    }

    /** Case 6, current on the left (s BLACK, its far child cr RED): s takes p's
        colour, p turns BLACK, s is rotated up, and current and cr turn BLACK; the
        double black is gone. */
    method Case6L(current: int, p: int, s: int, cr: int, ghost ctx: Ctx, ghost sub: Tree, ghost x: int)
        returns (ghost ctx': Ctx, ghost sub': Tree)
      requires Shaped() && shape == Plug(ctx, sub) && DelInv(ctx, sub, x) && XLeaf(sub, x)
      requires sub.id == current && sub.c == DOUBLE_BLACK && ctx.InL? && p == ctx.id
      requires ctx.r.Node? && ctx.r.id == s && ctx.r.c == BLACK && Red(ctx.r.r) && ctx.r.r.id == cr
      modifies this
      ensures Shaped() && shape == Plug(ctx', sub') && DelInv(ctx', sub', x) && XLeaf(sub', x)
      ensures sub' == Paint(sub, BLACK)
      ensures ctx' == InL(InL(ctx.up, s, ctx.c, Paint(ctx.r.r, BLACK)), p, BLACK, ctx.r.l)
      ensures InOrder(shape) == old(InOrder(shape)) && Ids(shape) == old(Ids(shape))
      ensures |nodes| == old(|nodes|) && value == old(value)
      ensures KeepsOutside(old(nodes), nodes, old(Ids(shape)))
    {
      FamilyFacts(ctx, sub, nodes, root);
      ghost var sib, far, cp := ctx.r, ctx.r.r, ctx.c;
      SetBlackness(s, nodes[p].blackness, InR(sub, p, cp, ctx.up), sib);
      SetBlackness(p, BLACK, ctx.up, Node(sub, p, cp, Paint(sib, cp)));
      RotateLeft(s, ctx.up, Node(sub, p, BLACK, Paint(sib, cp)));
      SetBlackness(current, BLACK, InL(InL(ctx.up, s, cp, far), p, BLACK, sib.l), sub);
      SetBlackness(cr, BLACK, InR(Node(Paint(sub, BLACK), p, BLACK, sib.l), s, cp, ctx.up), far);
      DelCase6L(ctx.up, p, cp, sub, sib.l, s, far.l, cr, far.r, x);
      ctx' := InL(InL(ctx.up, s, cp, Paint(far, BLACK)), p, BLACK, sib.l);
      sub' := Paint(sub, BLACK);
      XLeafPaint(sub, x);
    }

    /** Case 6, current on the right: the mirror image, with cl turned BLACK. */
    method Case6R(current: int, p: int, s: int, cl: int, ghost ctx: Ctx, ghost sub: Tree, ghost x: int)
        returns (ghost ctx': Ctx, ghost sub': Tree)
      requires Shaped() && shape == Plug(ctx, sub) && DelInv(ctx, sub, x) && XLeaf(sub, x)
      requires sub.id == current && sub.c == DOUBLE_BLACK && ctx.InR? && p == ctx.id
      requires ctx.l.Node? && ctx.l.id == s && ctx.l.c == BLACK && Red(ctx.l.l) && ctx.l.l.id == cl
      modifies this
      ensures Shaped() && shape == Plug(ctx', sub') && DelInv(ctx', sub', x) && XLeaf(sub', x)
      ensures sub' == Paint(sub, BLACK)
      ensures ctx' == InR(ctx.l.r, p, BLACK, InR(Paint(ctx.l.l, BLACK), s, ctx.c, ctx.up))
      ensures InOrder(shape) == old(InOrder(shape)) && Ids(shape) == old(Ids(shape))
      ensures |nodes| == old(|nodes|) && value == old(value)
      ensures KeepsOutside(old(nodes), nodes, old(Ids(shape)))
    {
      FamilyFacts(ctx, sub, nodes, root);
      ghost var sib, far, cp := ctx.l, ctx.l.l, ctx.c;
      SetBlackness(s, nodes[p].blackness, InL(ctx.up, p, cp, sub), sib);
      SetBlackness(p, BLACK, ctx.up, Node(Paint(sib, cp), p, cp, sub));
      RotateRight(s, ctx.up, Node(Paint(sib, cp), p, BLACK, sub));
      SetBlackness(current, BLACK, InR(sib.r, p, BLACK, InR(far, s, cp, ctx.up)), sub);
      SetBlackness(cl, BLACK, InL(ctx.up, s, cp, Node(sib.r, p, BLACK, Paint(sub, BLACK))), far);
      DelCase6R(ctx.up, p, cp, sub, far.l, cl, far.r, s, sib.r, x);
      ctx' := InR(sib.r, p, BLACK, InR(Paint(far, BLACK), s, cp, ctx.up));
      sub' := Paint(sub, BLACK);
      XLeafPaint(sub, x);
    }

    /** `*link = v`, for a `struct rb_node **link` naming the root pointer or a child slot. */
    method Store(link: Slot, v: int)
      requires SlotIn(link, nodes)
      modifies this
      ensures nodes == StoreNodes(old(nodes), link, v) && root == StoreRoot(old(root), link, v)
      ensures value == old(value) && shape == old(shape)
    {
      match link {
        case RootSlot => root := v;
        case LeftOf(n) => nodes := nodes[n := nodes[n].(left := v)];
        case RightOf(n) => nodes := nodes[n := nodes[n].(right := v)];
      }
    }

    /** fix_self_references: every link of `node` that names `from` is made to name `to`. */
    method FixSelfReferences(node: int, from: int, to: int)
      requires 0 <= node < |nodes|
      modifies this
      ensures nodes == old(nodes)[node := Redirect(old(nodes[node]), from, to)]
      ensures root == old(root) && value == old(value) && shape == old(shape)
    {
      if nodes[node].parent == from {
        nodes := nodes[node := nodes[node].(parent := to)];
      }
      if nodes[node].left == from {
        nodes := nodes[node := nodes[node].(left := to)];
      }
      if nodes[node].right == from {
        nodes := nodes[node := nodes[node].(right := to)];
      }
    }

    /** assign_parent_to_children: the children of `node` name it as their parent. */
    method AssignParentToChildren(node: int)
      requires 0 <= node < |nodes|
      requires InArena(nodes[node].left, nodes) && InArena(nodes[node].right, nodes)
      modifies this
      ensures nodes == Adopt(old(nodes), node)
      ensures root == old(root) && value == old(value) && shape == old(shape)
    {
      var l, r := nodes[node].left, nodes[node].right;
      if l != NIL {
        nodes := nodes[l := nodes[l].(parent := node)];
      }
      if r != NIL {
        nodes := nodes[r := nodes[r].(parent := node)];
      }
    }

    /** swap_nodes: a and b exchange their places in the tree, each taking over the
        other's links and colour; the stored tree is the old one with the two ids
        exchanged, and every other record keeps its contents up to that renaming. */
    method SwapNodes(a: int, b: int)
      requires Shaped() && a in Ids(shape) && b in Ids(shape)
      modifies this
      ensures Shaped() && shape == SwapT(old(shape), a, b)
      ensures root == Sw(old(root), a, b)
      ensures |nodes| == old(|nodes|) && value == old(value)
      ensures forall j :: j in old(Ids(shape)) ==>
        0 <= j < |nodes| && 0 <= Sw(j, a, b) < |nodes| && nodes[Sw(j, a, b)] == SwRec(old(nodes[j]), a, b)
      ensures forall i :: 0 <= i < |nodes| && i !in Ids(shape) ==> nodes[i] == old(nodes[i])
      ensures a == b ==> nodes == old(nodes) && shape == old(shape)
      ensures KeepsOutside(old(nodes), nodes, old(Ids(shape)))
    {
      if a == b {
        RepConsistent(shape, nodes, root);
        SwapSame(shape, a);
        return;
      }
      SwapIdsSame(shape, a, b);
      SwapDistinct(a, b);
    }

    /** swap_nodes on two different nodes. */
    method SwapDistinct(a: int, b: int)
      requires Shaped() && a in Ids(shape) && b in Ids(shape) && a != b
      modifies this
      ensures Shaped() && shape == SwapT(old(shape), a, b)
      ensures root == Sw(old(root), a, b)
      ensures |nodes| == old(|nodes|) && value == old(value)
      ensures forall j :: j in old(Ids(shape)) ==>
        0 <= j < |nodes| && 0 <= Sw(j, a, b) < |nodes| && nodes[Sw(j, a, b)] == SwRec(old(nodes[j]), a, b)
      ensures forall i :: 0 <= i < |nodes| && i !in Ids(shape) ==> nodes[i] == old(nodes[i])
    {
      ghost var t0, ns0, r0 := shape, nodes, root;
      SwapPre(shape, nodes, root, a, b);
      shape := SwapT(t0, a, b);
      var aLeft := nodes[a].parent != NIL && nodes[nodes[a].parent].left == a;
      var bLeft := nodes[b].parent != NIL && nodes[nodes[b].parent].left == b;
      ghost var ns3, ns4, r4, ns5, ns6 := SwapLinks(a, b, aLeft, bLeft);
      SwapNodesPost(t0, ns0, r0, a, b, aLeft, bLeft, ns3, ns4, r4, ns5, root, ns6, nodes);
    }

    /** The writes of swap_nodes once the sides of a and b are known; the ghost
        results are the arena after each stage. */
    method SwapLinks(a: int, b: int, aLeft: bool, bLeft: bool)
      returns (ghost ns3: seq<RbNode>, ghost ns4: seq<RbNode>, ghost r4: int, ghost ns5: seq<RbNode>, ghost ns6: seq<RbNode>)
      requires 0 <= a < |nodes| && 0 <= b < |nodes| && a != b
      requires LinksInArena(nodes[a], nodes) && LinksInArena(nodes[b], nodes)
      requires aLeft == (nodes[a].parent != NIL && nodes[nodes[a].parent].left == a)
      requires bLeft == (nodes[b].parent != NIL && nodes[nodes[b].parent].left == b)
      modifies this
      ensures SwapWrites(old(nodes), old(root), a, b, aLeft, bLeft, ns3, ns4, r4, ns5, root)
      ensures Adopted(ns5, ns6, a) && Adopted(ns6, nodes, b)
      ensures value == old(value) && shape == old(shape)
    {
      ghost var ns0, r0 := nodes, root;
      ExchangeRecords(a, b);
      ns3 := nodes;
      LinkFromAbove(a, b, aLeft, bLeft);
      ns4 := StoreNodes(ns3, ParentSlot(ns3[a].parent, bLeft), a);
      r4 := StoreRoot(r0, ParentSlot(ns3[a].parent, bLeft), a);
      ns5 := nodes;
      ghost var r5 := root;
      SwapWritesInArena(ns0, r0, a, b, aLeft, bLeft, ns3, ns4, r4, ns5, r5);
      LinkFromBelow(a, b);
      ns6 := Adopt(ns5, a);
    }

    /** The middle steps of swap_nodes: the slots that held a and b (the root pointer
        or a child link of the new parent, on the side the other node used to be on)
        are computed and then written, a first. */
    method LinkFromAbove(a: int, b: int, aLeft: bool, bLeft: bool)
      requires 0 <= a < |nodes| && 0 <= b < |nodes|
      requires InArena(nodes[a].parent, nodes) && InArena(nodes[b].parent, nodes)
      modifies this
      ensures var ns4 := StoreNodes(old(nodes), ParentSlot(old(nodes[a].parent), bLeft), a);
        SlotIn(ParentSlot(old(nodes[b].parent), aLeft), ns4) &&
        nodes == StoreNodes(ns4, ParentSlot(old(nodes[b].parent), aLeft), b) &&
        root == StoreRoot(StoreRoot(old(root), ParentSlot(old(nodes[a].parent), bLeft), a),
                          ParentSlot(old(nodes[b].parent), aLeft), b)
      ensures value == old(value) && shape == old(shape)
    {
      var aLink := RootSlot;
      if nodes[a].parent != NIL {
        aLink := if bLeft then LeftOf(nodes[a].parent) else RightOf(nodes[a].parent);
      }
      var bLink := RootSlot;
      if nodes[b].parent != NIL {
        bLink := if aLeft then LeftOf(nodes[b].parent) else RightOf(nodes[b].parent);
      }
      Store(aLink, a);
      Store(bLink, b);
    }

    /** The last steps of swap_nodes: the children of a, then those of b, name their parent. */
    method LinkFromBelow(a: int, b: int)
      requires 0 <= a < |nodes| && 0 <= b < |nodes|
      requires LinksInArena(nodes[a], nodes) && LinksInArena(nodes[b], nodes)
      modifies this
      ensures var ns6 := Adopt(old(nodes), a);
        LinksInArena(ns6[b], ns6) && nodes == Adopt(ns6, b)
      ensures root == old(root) && value == old(value) && shape == old(shape)
    {
      AssignParentToChildren(a);
      AssignParentToChildren(b);
    }

    /** The first steps of swap_nodes: `tmp = *a; *a = *b; *b = tmp;` and the two
        calls of fix_self_references, so that a link between a and b survives. */
    method ExchangeRecords(a: int, b: int)
      requires 0 <= a < |nodes| && 0 <= b < |nodes| && a != b
      modifies this
      ensures nodes == old(nodes)[a := Redirect(old(nodes[b]), a, b)][b := Redirect(old(nodes[a]), b, a)]
      ensures root == old(root) && value == old(value) && shape == old(shape)
    {
      var tmp := nodes[a];
      nodes := nodes[a := nodes[b]];
      nodes := nodes[b := tmp];
      FixSelfReferences(a, a, b);
      FixSelfReferences(b, b, a);
    }
  }
}
