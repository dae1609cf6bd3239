/** The arena of `struct rb_node` records and what it means for it to store a tree.
    A record holds the three links of rbt.c's node (ids, NIL for NULL) and its
    `blackness`; `root` plays the part of the caller's `struct rb_node *root`. */
module RbLinks {
  import opened RbModel
  import opened RbLemmas

  datatype RbNode = RbNode(parent: int, left: int, right: int, blackness: int)

  /** Every node of `t` has a record whose links and colour are those of the shape,
      and the root of `t` names `pp` as its parent. */
  predicate Linked(t: Tree, pp: int, ns: seq<RbNode>) {
    t.Node? ==>
      0 <= t.id < |ns| && ns[t.id] == RbNode(pp, RootId(t.l), RootId(t.r), t.c) &&
      Linked(t.l, t.id, ns) && Linked(t.r, t.id, ns)
  }

  /** The nodes of a path are linked, the child slot of the lowest one holding `hole`. */
  predicate LinkedCtx(ctx: Ctx, hole: int, ns: seq<RbNode>, root: int) {
    match ctx
    case Top => root == hole
    case InL(up, id, c, r) =>
      0 <= id < |ns| && ns[id] == RbNode(CtxId(up), hole, RootId(r), c) &&
      Linked(r, id, ns) && LinkedCtx(up, id, ns, root)
    case InR(l, id, c, up) =>
      0 <= id < |ns| && ns[id] == RbNode(CtxId(up), RootId(l), hole, c) &&
      Linked(l, id, ns) && LinkedCtx(up, id, ns, root)
  }

  /** The arena and the root pointer store exactly the tree `t`. */
  predicate Rep(t: Tree, ns: seq<RbNode>, root: int) {
    Linked(t, NIL, ns) && root == RootId(t)
  }

  lemma {:induction false} RepPlug(ctx: Ctx, t: Tree, ns: seq<RbNode>, root: int)
    ensures Rep(Plug(ctx, t), ns, root) <==> Linked(t, CtxId(ctx), ns) && LinkedCtx(ctx, RootId(t), ns, root)
    decreases ctx
  {
    match ctx
    case Top =>
    case InL(up, id, c, r) => RepPlug(up, Node(t, id, c, r), ns, root);
    case InR(l, id, c, up) => RepPlug(up, Node(l, id, c, t), ns, root);
  }

  /** Two arenas hold the same records at the ids of S. */
  predicate Agree(ns: seq<RbNode>, ns2: seq<RbNode>, S: set<int>) {
    forall i :: i in S && 0 <= i < |ns| ==> i < |ns2| && ns2[i] == ns[i]
  }

  lemma AgreeSub(ns: seq<RbNode>, ns2: seq<RbNode>, S: set<int>, T: set<int>)
    requires Agree(ns, ns2, S) && T <= S
    ensures Agree(ns, ns2, T)
  {
  }

  lemma {:induction false} LinkedFrame(t: Tree, pp: int, ns: seq<RbNode>, ns2: seq<RbNode>)
    requires Linked(t, pp, ns) && Agree(ns, ns2, Ids(t))
    ensures Linked(t, pp, ns2)
  {
    if t.Node? {
      LinkedFrame(t.l, t.id, ns, ns2);
      LinkedFrame(t.r, t.id, ns, ns2);
    }
  }

  lemma {:induction false} LinkedCtxFrame(ctx: Ctx, hole: int, ns: seq<RbNode>, ns2: seq<RbNode>, root: int)
    requires LinkedCtx(ctx, hole, ns, root) && Agree(ns, ns2, CtxIds(ctx))
    ensures LinkedCtx(ctx, hole, ns2, root)
    decreases ctx
  {
    match ctx
    case Top =>
    case InL(up, id, c, r) =>
      LinkedFrame(r, id, ns, ns2);
      LinkedCtxFrame(up, id, ns, ns2, root);
    case InR(l, id, c, up) =>
      LinkedFrame(l, id, ns, ns2);
      LinkedCtxFrame(up, id, ns, ns2, root);
  }

  /** Only the parent link of the root of `t` differs. */
  lemma LinkedReparent(t: Tree, pp: int, pp2: int, ns: seq<RbNode>, ns2: seq<RbNode>)
    requires Linked(t, pp, ns) && Wf(t)
    requires t.Node? ==> t.id < |ns2| && ns2[t.id] == ns[t.id].(parent := pp2)
    requires Agree(ns, ns2, Ids(t) - {RootId(t)})
    ensures Linked(t, pp2, ns2)
  {
    if t.Node? {
      assert Ids(t.l) <= Ids(t) - {RootId(t)} && Ids(t.r) <= Ids(t) - {RootId(t)};
      AgreeSub(ns, ns2, Ids(t) - {RootId(t)}, Ids(t.l));
      AgreeSub(ns, ns2, Ids(t) - {RootId(t)}, Ids(t.r));
      LinkedFrame(t.l, t.id, ns, ns2);
      LinkedFrame(t.r, t.id, ns, ns2);
    }
  }

  /** `ns2, root2` are `ns, root` after the C assignment `*link = v`, where `link`
      is the child slot that the path `ctx` ends in (the root pointer at Top). */
  predicate Relinked(ctx: Ctx, ns: seq<RbNode>, root: int, ns2: seq<RbNode>, root2: int, v: int) {
    match ctx
    case Top => root2 == v
    case InL(_, id, _, _) => root2 == root && 0 <= id < |ns| && id < |ns2| && ns2[id] == ns[id].(left := v)
    case InR(_, id, _, _) => root2 == root && 0 <= id < |ns| && id < |ns2| && ns2[id] == ns[id].(right := v)
  }

  /** Replacing the subtree in the hole of `ctx`: if the new subtree is linked below
      the hole's node, the slot now names it and the rest of the path is untouched,
      the arena stores the new tree. */
  lemma RepReplace(ctx: Ctx, t: Tree, t2: Tree, ns: seq<RbNode>, root: int, ns2: seq<RbNode>, root2: int)
    requires Rep(Plug(ctx, t), ns, root) && Wf(Plug(ctx, t))
    requires Linked(t2, CtxId(ctx), ns2)
    requires Relinked(ctx, ns, root, ns2, root2, RootId(t2))
    requires Agree(ns, ns2, CtxIds(ctx) - {CtxId(ctx)})
    ensures Rep(Plug(ctx, t2), ns2, root2)
  {
    RepPlug(ctx, t, ns, root);
    RepPlug(ctx, t2, ns2, root2);
    WfPlug(ctx, t);
    match ctx
    case Top =>
    case InL(up, id, c, r) =>
      AgreeSub(ns, ns2, CtxIds(ctx) - {id}, Ids(r));
      AgreeSub(ns, ns2, CtxIds(ctx) - {id}, CtxIds(up));
      LinkedFrame(r, id, ns, ns2);
      LinkedCtxFrame(up, id, ns, ns2, root);
    case InR(l, id, c, up) =>
      AgreeSub(ns, ns2, CtxIds(ctx) - {id}, Ids(l));
      AgreeSub(ns, ns2, CtxIds(ctx) - {id}, CtxIds(up));
      LinkedFrame(l, id, ns, ns2);
      LinkedCtxFrame(up, id, ns, ns2, root);
  }

  /** The record of node x is the root record of the subtree at x. */
  lemma {:induction false} LinkedSubAt(t: Tree, pp: int, ns: seq<RbNode>, x: int)
    requires Linked(t, pp, ns) && x in Ids(t)
    ensures SubAt(t, x).Node? && SubAt(t, x).id == x
    ensures 0 <= x < |ns|
    ensures ns[x].left == RootId(SubAt(t, x).l) && ns[x].right == RootId(SubAt(t, x).r)
    ensures ns[x].blackness == SubAt(t, x).c
  {
    if t.id != x {
      if x in Ids(t.l) { LinkedSubAt(t.l, t.id, ns, x); } else { LinkedSubAt(t.r, t.id, ns, x); }
    }
  }

  lemma {:induction false} LinkedIds(t: Tree, pp: int, ns: seq<RbNode>)
    requires Linked(t, pp, ns)
    ensures forall i :: i in Ids(t) ==> 0 <= i < |ns|
  {
    if t.Node? {
      LinkedIds(t.l, t.id, ns);
      LinkedIds(t.r, t.id, ns);
    }
  }

  /** Linking still holds after a fresh record is appended (malloc). */
  lemma RepGrow(t: Tree, ns: seq<RbNode>, root: int, n: RbNode)
    requires Rep(t, ns, root)
    ensures Rep(t, ns + [n], root)
  {
    LinkedFrame(t, NIL, ns, ns + [n]);
  }

  // ----- colours -----

  /** Writing the colour of the node in the hole recolours that node of the tree. */
  lemma RepPaint(ctx: Ctx, t: Tree, ns: seq<RbNode>, root: int, c: int)
    requires Rep(Plug(ctx, t), ns, root) && Wf(Plug(ctx, t)) && t.Node?
    ensures 0 <= t.id < |ns|
    ensures Rep(Plug(ctx, Paint(t, c)), ns[t.id := ns[t.id].(blackness := c)], root)
  {
    RepPlug(ctx, t, ns, root);
    WfPlug(ctx, t);
    var ns2 := ns[t.id := ns[t.id].(blackness := c)];
    LinkedFrame(t.l, t.id, ns, ns2);
    LinkedFrame(t.r, t.id, ns, ns2);
    LinkedCtxFrame(ctx, t.id, ns, ns2, root);
    RepPlug(ctx, Paint(t, c), ns2, root);
  }

  // ----- rotations -----

  /** What a rotation reads: the records of the nodes around the hole of `ctx`. */
  lemma HoleFacts(ctx: Ctx, t: Tree, ns: seq<RbNode>, root: int)
    requires Rep(Plug(ctx, t), ns, root) && Wf(Plug(ctx, t)) && t.Node?
    ensures 0 <= t.id < |ns| && ns[t.id] == RbNode(CtxId(ctx), RootId(t.l), RootId(t.r), t.c)
    ensures t.l.Node? ==> 0 <= t.l.id < |ns| && ns[t.l.id] == RbNode(t.id, RootId(t.l.l), RootId(t.l.r), t.l.c)
    ensures t.r.Node? ==> 0 <= t.r.id < |ns| && ns[t.r.id] == RbNode(t.id, RootId(t.r.l), RootId(t.r.r), t.r.c)
    ensures t.l.Node? && t.l.r.Node? ==> 0 <= t.l.r.id < |ns|
    ensures t.r.Node? && t.r.l.Node? ==> 0 <= t.r.l.id < |ns|
    ensures ctx.Top? ==> root == t.id
    ensures !ctx.Top? ==>
      0 <= ctx.id < |ns| && ctx.id !in Ids(t) && (ns[ctx.id].left == t.id <==> ctx.InL?)
    ensures forall i :: i in Ids(t) ==> i >= 0
    ensures Wf(t)
  {
    RepPlug(ctx, t, ns, root);
    WfPlug(ctx, t);
    IdsPlug(ctx, t);
    WfIds(Plug(ctx, t));
    if !ctx.Top? {
      IdsPlug(ctx.up, Plug(Top, Node(t, ctx.id, ctx.c, Nil)));
      if ctx.InR? {
        assert t.id !in Ids(ctx.l);
      }
    }
    LinkedIds(t, CtxId(ctx), ns);
  }

  /** The tree one level up: the node whose child slot is the hole, with `t` in it. */
  function Up1(ctx: Ctx, t: Tree): (u: Tree)
    requires !ctx.Top?
    ensures u.Node? && u.id == ctx.id && Plug(ctx.up, u) == Plug(ctx, t)
  {
    match ctx
    case InL(_, id, c, r) => Node(t, id, c, r)
    case InR(l, id, c, _) => Node(l, id, c, t)
  }

  /** What the loop conditions read: the parent link of the node in the hole and the
      colour of its parent. */
  lemma ParentFacts(ctx: Ctx, t: Tree, ns: seq<RbNode>, root: int)
    requires Rep(Plug(ctx, t), ns, root) && t.Node?
    ensures 0 <= t.id < |ns| && ns[t.id].parent == CtxId(ctx)
    ensures !ctx.Top? ==> 0 <= ctx.id < |ns| && ns[ctx.id].blackness == ctx.c
  {
    RepPlug(ctx, t, ns, root);
  }

  /** What rb_del's fixup reads about the family of current (the node in the hole):
      the records of its parent p and of its sibling s, and the colours of the
      children cl and cr of s; all of them are distinct nodes. */
  lemma FamilyFacts(ctx: Ctx, t: Tree, ns: seq<RbNode>, root: int)
    requires Rep(Plug(ctx, t), ns, root) && Wf(Plug(ctx, t)) && t.Node? && !ctx.Top?
    ensures 0 <= t.id < |ns| && ns[t.id].parent == ctx.id && ns[t.id].blackness == t.c
    ensures 0 <= ctx.id < |ns| && ns[ctx.id].blackness == ctx.c && ctx.id != t.id
    ensures ns[ctx.id].left == (if ctx.InL? then t.id else RootId(ctx.l))
    ensures ns[ctx.id].right == (if ctx.InL? then RootId(ctx.r) else t.id)
    ensures var S := Sibling(ctx);
      S.Node? ==>
        0 <= S.id < |ns| && ns[S.id].left == RootId(S.l) && ns[S.id].right == RootId(S.r) &&
        ns[S.id].blackness == S.c && S.id != t.id && S.id != ctx.id
    ensures var S := Sibling(ctx);
      S.Node? && S.l.Node? ==>
        0 <= S.l.id < |ns| && ns[S.l.id].blackness == S.l.c &&
        S.l.id != t.id && S.l.id != ctx.id && S.l.id != S.id && S.l.id != RootId(S.r)
    ensures var S := Sibling(ctx);
      S.Node? && S.r.Node? ==>
        0 <= S.r.id < |ns| && ns[S.r.id].blackness == S.r.c &&
        S.r.id != t.id && S.r.id != ctx.id && S.r.id != S.id
  {
    var u := Up1(ctx, t);
    HoleFacts(ctx, t, ns, root);
    HoleFacts(ctx.up, u, ns, root);
    var S := Sibling(ctx);
    if S.Node? {
      var c2 := if ctx.InL? then InR(t, ctx.id, ctx.c, ctx.up) else InL(ctx.up, ctx.id, ctx.c, t);
      assert Plug(c2, S) == Plug(ctx.up, u);
      HoleFacts(c2, S, ns, root);
      assert Ids(S) <= Ids(u) && t.id !in Ids(S);
    }
  }

  /** `ns2` is `ns` with at most the colours of the nodes in S changed: no link moves. */
  predicate Recoloured(ns: seq<RbNode>, ns2: seq<RbNode>, S: set<int>) {
    |ns2| == |ns| &&
    forall i :: 0 <= i < |ns| ==>
      ns2[i].parent == ns[i].parent && ns2[i].left == ns[i].left && ns2[i].right == ns[i].right &&
      (i !in S ==> ns2[i].blackness == ns[i].blackness)
  }

  lemma RecolourMore(ns: seq<RbNode>, ns2: seq<RbNode>, S: set<int>, n: int, c: int)
    requires Recoloured(ns, ns2, S) && n in S && 0 <= n < |ns2|
    ensures Recoloured(ns, ns2[n := ns2[n].(blackness := c)], S)
  {
  }

  /** Node k is nil or a record that is not RED. */
  predicate NoRedAt(ns: seq<RbNode>, k: int) {
    k == NIL || (0 <= k < |ns| && ns[k].blackness != RED)
  }

  lemma RecolouredNoRed(ns: seq<RbNode>, ns2: seq<RbNode>, S: set<int>, k: int)
    requires Recoloured(ns, ns2, S) && k !in S && NoRedAt(ns, k)
    ensures NoRedAt(ns2, k)
  {
  }

  /** What rb_insert_color reads about node, p and gp: the parent links and on which
      side of its parent each of node and p hangs. */
  lemma Grandparent(ctx: Ctx, t: Tree, ns: seq<RbNode>, root: int)
    requires Rep(Plug(ctx, t), ns, root) && Wf(Plug(ctx, t)) && t.Node?
    requires !ctx.Top? && !ctx.up.Top?
    ensures 0 <= ctx.id < |ns| && 0 <= ctx.up.id < |ns|
    ensures ns[ctx.id].left == t.id <==> ctx.InL?
    ensures ns[ctx.up.id].left == ctx.id <==> ctx.up.InL?
  {
    HoleFacts(ctx, t, ns, root);
    HoleFacts(ctx.up, Up1(ctx, t), ns, root);
  }

  /** The records that rotate_right leaves: p takes gp's place, gp becomes p's right
      child and p's former right subtree moves under gp. Every other record is kept. */
  lemma RotRLinks(ctx: Ctx, a: Tree, p: int, cp: int, b: Tree, gp: int, cg: int, c: Tree,
                  ns: seq<RbNode>, root: int, ns2: seq<RbNode>, root2: int)
    requires var t := Node(Node(a, p, cp, b), gp, cg, c);
      Rep(Plug(ctx, t), ns, root) && Wf(Plug(ctx, t))
    requires |ns2| == |ns| && 0 <= p < |ns| && 0 <= gp < |ns|
    requires ns2[p] == RbNode(CtxId(ctx), RootId(a), gp, cp)
    requires ns2[gp] == RbNode(p, RootId(b), RootId(c), cg)
    requires b.Node? ==> 0 <= b.id < |ns| && ns2[b.id] == ns[b.id].(parent := gp)
    requires Relinked(ctx, ns, root, ns2, root2, p)
    requires forall i :: 0 <= i < |ns| && i != p && i != gp && i != RootId(b) && i != CtxId(ctx) ==> ns2[i] == ns[i]
    ensures var t := Node(Node(a, p, cp, b), gp, cg, c);
      Rep(Plug(ctx, RotR(t)), ns2, root2)
  {
    var t := Node(Node(a, p, cp, b), gp, cg, c);
    var X := {p, gp, CtxId(ctx)} + (if b.Node? then {b.id} else {});
    RotContext(ctx, t, ns, root);
    AgreeExcept(ns, ns2, Ids(t) - {p, gp, RootId(b)}, X);
    AgreeExcept(ns, ns2, CtxIds(ctx) - {CtxId(ctx)}, X);
    RotRSub(a, p, cp, b, gp, cg, c, CtxId(ctx), ns, ns2);
    RepReplace(ctx, t, RotR(t), ns, root, ns2, root2);
  }

  /** The rotation on the subtree alone: the records of p, gp and the moved
      subtree's root are rewritten, the others below are kept. */
  lemma RotRSub(a: Tree, p: int, cp: int, b: Tree, gp: int, cg: int, c: Tree, pp: int,
                ns: seq<RbNode>, ns2: seq<RbNode>)
    requires var t := Node(Node(a, p, cp, b), gp, cg, c); Linked(t, pp, ns) && Wf(t)
    requires |ns2| == |ns| && 0 <= p < |ns| && 0 <= gp < |ns|
    requires ns2[p] == RbNode(pp, RootId(a), gp, cp)
    requires ns2[gp] == RbNode(p, RootId(b), RootId(c), cg)
    requires b.Node? ==> 0 <= b.id < |ns| && ns2[b.id] == ns[b.id].(parent := gp)
    requires Agree(ns, ns2, Ids(Node(Node(a, p, cp, b), gp, cg, c)) - {p, gp, RootId(b)})
    ensures Linked(RotR(Node(Node(a, p, cp, b), gp, cg, c)), pp, ns2)
  {
    var S := Ids(Node(Node(a, p, cp, b), gp, cg, c)) - {p, gp, RootId(b)};
    WfIds(a);
    WfIds(c);
    assert b.Node? ==> b.id in Ids(b);
    AgreeSub(ns, ns2, S, Ids(a));
    AgreeSub(ns, ns2, S, Ids(c));
    AgreeSub(ns, ns2, S, Ids(b) - {RootId(b)});
    LinkedFrame(a, p, ns, ns2);
    LinkedFrame(c, gp, ns, ns2);
    LinkedReparent(b, p, gp, ns, ns2);
  }

  /** The facts about a subtree and its path that a rotation below the path needs:
      the subtree is linked below the path's node, which lies outside it. */
  lemma RotContext(ctx: Ctx, t: Tree, ns: seq<RbNode>, root: int)
    requires Rep(Plug(ctx, t), ns, root) && Wf(Plug(ctx, t))
    ensures Linked(t, CtxId(ctx), ns) && Wf(t) && CtxId(ctx) !in Ids(t) && Ids(t) !! CtxIds(ctx)
  {
    RepPlug(ctx, t, ns, root);
    WfPlug(ctx, t);
    WfIds(t);
    assert ctx.Top? || CtxId(ctx) in CtxIds(ctx);
  }

  /** Two arenas that differ only at the ids of X agree on a set disjoint from X. */
  lemma AgreeExcept(ns: seq<RbNode>, ns2: seq<RbNode>, S: set<int>, X: set<int>)
    requires |ns2| == |ns| && forall i :: 0 <= i < |ns| && i !in X ==> ns2[i] == ns[i]
    requires S !! X
    ensures Agree(ns, ns2, S)
  {
  }

  /** `ns2` holds the records of `ns` at every id outside S. */
  predicate KeepsOutside(ns: seq<RbNode>, ns2: seq<RbNode>, S: set<int>) {
    |ns2| == |ns| && forall i :: 0 <= i < |ns| && i !in S ==> ns2[i] == ns[i]
  }

  /** A rotation writes only records of the tree: those of p, gp, the moved subtree's
      root and the node above. */
  lemma RotFrame(ctx: Ctx, t: Tree, p: int, gp: int, m: int, ns: seq<RbNode>, ns2: seq<RbNode>)
    requires p in Ids(t) && gp in Ids(t) && (m == NIL || m in Ids(t))
    requires |ns2| == |ns|
    requires forall i :: 0 <= i < |ns| && i != p && i != gp && i != m && i != CtxId(ctx) ==> ns2[i] == ns[i]
    ensures forall i :: 0 <= i < |ns| && i !in Ids(Plug(ctx, t)) ==> ns2[i] == ns[i]
  {
    IdsPlug(ctx, t);
    assert ctx.Top? || CtxId(ctx) in CtxIds(ctx);
  }

  /** The mirror: rotate_left moves p, the right child of gp, into gp's place. */
  lemma RotLLinks(ctx: Ctx, a: Tree, gp: int, cg: int, b: Tree, p: int, cp: int, c: Tree,
                  ns: seq<RbNode>, root: int, ns2: seq<RbNode>, root2: int)
    requires var t := Node(a, gp, cg, Node(b, p, cp, c));
      Rep(Plug(ctx, t), ns, root) && Wf(Plug(ctx, t))
    requires |ns2| == |ns| && 0 <= p < |ns| && 0 <= gp < |ns|
    requires ns2[p] == RbNode(CtxId(ctx), gp, RootId(c), cp)
    requires ns2[gp] == RbNode(p, RootId(a), RootId(b), cg)
    requires b.Node? ==> 0 <= b.id < |ns| && ns2[b.id] == ns[b.id].(parent := gp)
    requires Relinked(ctx, ns, root, ns2, root2, p)
    requires forall i :: 0 <= i < |ns| && i != p && i != gp && i != RootId(b) && i != CtxId(ctx) ==> ns2[i] == ns[i]
    ensures var t := Node(a, gp, cg, Node(b, p, cp, c));
      Rep(Plug(ctx, RotL(t)), ns2, root2)
  {
    var t := Node(a, gp, cg, Node(b, p, cp, c));
    var X := {p, gp, CtxId(ctx)} + (if b.Node? then {b.id} else {});
    RotContext(ctx, t, ns, root);
    AgreeExcept(ns, ns2, Ids(t) - {p, gp, RootId(b)}, X);
    AgreeExcept(ns, ns2, CtxIds(ctx) - {CtxId(ctx)}, X);
    RotLSub(a, gp, cg, b, p, cp, c, CtxId(ctx), ns, ns2);
    RepReplace(ctx, t, RotL(t), ns, root, ns2, root2);
  }

  lemma RotLSub(a: Tree, gp: int, cg: int, b: Tree, p: int, cp: int, c: Tree, pp: int,
                ns: seq<RbNode>, ns2: seq<RbNode>)
    requires var t := Node(a, gp, cg, Node(b, p, cp, c)); Linked(t, pp, ns) && Wf(t)
    requires |ns2| == |ns| && 0 <= p < |ns| && 0 <= gp < |ns|
    requires ns2[p] == RbNode(pp, gp, RootId(c), cp)
    requires ns2[gp] == RbNode(p, RootId(a), RootId(b), cg)
    requires b.Node? ==> 0 <= b.id < |ns| && ns2[b.id] == ns[b.id].(parent := gp)
    requires Agree(ns, ns2, Ids(Node(a, gp, cg, Node(b, p, cp, c))) - {p, gp, RootId(b)})
    ensures Linked(RotL(Node(a, gp, cg, Node(b, p, cp, c))), pp, ns2)
  {
    var S := Ids(Node(a, gp, cg, Node(b, p, cp, c))) - {p, gp, RootId(b)};
    WfIds(a);
    WfIds(c);
    assert b.Node? ==> b.id in Ids(b);
    AgreeSub(ns, ns2, S, Ids(a));
    AgreeSub(ns, ns2, S, Ids(c));
    AgreeSub(ns, ns2, S, Ids(b) - {RootId(b)});
    LinkedFrame(a, gp, ns, ns2);
    LinkedFrame(c, p, ns, ns2);
    LinkedReparent(b, p, gp, ns, ns2);
  }

  // ----- swapping two nodes -----

  /** A record with every link to a renamed to b and every link to b renamed to a. */
  function SwRec(n: RbNode, a: int, b: int): RbNode {
    RbNode(Sw(n.parent, a, b), Sw(n.left, a, b), Sw(n.right, a, b), n.blackness)
  }

  /** If the record of each node i now sits at Sw(i) with its links renamed, the
      arena stores the tree with a and b exchanged. */
  lemma {:induction false} LinkedSwap(t: Tree, pp: int, ns: seq<RbNode>, ns2: seq<RbNode>, a: int, b: int)
    requires Linked(t, pp, ns) && a >= 0 && b >= 0
    requires forall i :: i in Ids(t) && 0 <= i < |ns| ==> 0 <= Sw(i, a, b) < |ns2| && ns2[Sw(i, a, b)] == SwRec(ns[i], a, b)
    ensures Linked(SwapT(t, a, b), Sw(pp, a, b), ns2)
  {
    if t.Node? {
      LinkedSwap(t.l, t.id, ns, ns2, a, b);
      LinkedSwap(t.r, t.id, ns, ns2, a, b);
    }
  }

  predicate ChildOk(ns: seq<RbNode>, S: set<int>, k: int, j: int) {
    k != NIL ==> k in S && 0 <= k < |ns| && ns[k].parent == j
  }

  predicate ParentOk(ns: seq<RbNode>, S: set<int>, k: int, j: int) {
    k != NIL && k in S && 0 <= k < |ns| && (ns[k].left == j || ns[k].right == j)
  }

  /** The links of node j of the node set S point back at it, and none is a self-link. */
  predicate NodeOk(ns: seq<RbNode>, S: set<int>, j: int) {
    0 <= j < |ns| &&
    ChildOk(ns, S, ns[j].left, j) && ChildOk(ns, S, ns[j].right, j) &&
    (ns[j].left != NIL ==> ns[j].left != ns[j].right) &&
    ns[j].parent != j && ns[j].left != j && ns[j].right != j &&
    (ns[j].parent != NIL ==> ns[j].parent != ns[j].left && ns[j].parent != ns[j].right)
  }

  /** The double-linking of a stored tree, as local facts at each node. */
  predicate Consistent(ns: seq<RbNode>, S: set<int>, root: int) {
    (root != NIL ==> root in S && 0 <= root < |ns| && ns[root].parent == NIL) &&
    (forall j :: j in S ==> NodeOk(ns, S, j)) &&
    (forall j :: j in S && 0 <= j < |ns| ==> if ns[j].parent == NIL then root == j else ParentOk(ns, S, ns[j].parent, j))
  }

  lemma {:induction false} LinkedConsistent(t: Tree, pp: int, ns: seq<RbNode>)
    requires Linked(t, pp, ns) && Wf(t) && pp !in Ids(t)
    ensures forall j :: j in Ids(t) ==> NodeOk(ns, Ids(t), j)
    ensures forall j :: j in Ids(t) && j != RootId(t) && 0 <= j < |ns| ==> ParentOk(ns, Ids(t), ns[j].parent, j)
  {
    if t.Node? {
      LinkedConsistent(t.l, t.id, ns);
      LinkedConsistent(t.r, t.id, ns);
      LinkedIds(t, pp, ns);
    }
  }

  lemma RepConsistent(t: Tree, ns: seq<RbNode>, root: int)
    requires Rep(t, ns, root) && Wf(t)
    ensures Consistent(ns, Ids(t), root)
    ensures forall j :: j in Ids(t) ==> 0 <= j < |ns|
  {
    WfIds(t);
    LinkedConsistent(t, NIL, ns);
    LinkedIds(t, NIL, ns);
  }

  /** fix_self_references on one record: every link equal to `from` now names `to`.
      On a record with no link to `to` this is the exchange of `from` and `to`. */
  function Redirect(n: RbNode, from: int, to: int): (m: RbNode)
    ensures m.blackness == n.blackness
    ensures n.parent != to && n.left != to && n.right != to ==> m == SwRec(n, from, to) && m == SwRec(n, to, from)
  {
    RbNode(if n.parent == from then to else n.parent,
           if n.left == from then to else n.left,
           if n.right == from then to else n.right,
           n.blackness)
  }

  /** The arena after assign_parent_to_children(n). */
  function Adopt(ns: seq<RbNode>, n: int): (ns2: seq<RbNode>)
    requires 0 <= n < |ns| && InArena(ns[n].left, ns) && InArena(ns[n].right, ns)
    ensures Adopted(ns, ns2, n)
  {
    var l, r := ns[n].left, ns[n].right;
    var ns1 := if l != NIL then ns[l := ns[l].(parent := n)] else ns;
    if r != NIL then ns1[r := ns1[r].(parent := n)] else ns1
  }

  /** assign_parent_to_children on an arena: the children of n name n as parent. */
  predicate Adopted(ns: seq<RbNode>, ns2: seq<RbNode>, n: int) {
    0 <= n < |ns| && |ns2| == |ns| &&
    forall i :: 0 <= i < |ns| ==>
      ns2[i] == if i == ns[n].left || i == ns[n].right then ns[i].(parent := n) else ns[i]
  }

  /** A `struct rb_node **` into the tree: the root pointer or a child slot of node n. */
  datatype Slot = RootSlot | LeftOf(n: int) | RightOf(n: int)

  predicate SlotIn(link: Slot, ns: seq<RbNode>) {
    !link.RootSlot? ==> 0 <= link.n < |ns|
  }

  /** The slot that holds a node whose parent is p: the root pointer when p is NULL. */
  function ParentSlot(p: int, isLeft: bool): Slot {
    if p == NIL then RootSlot else if isLeft then LeftOf(p) else RightOf(p)
  }

  /** The arena and the root pointer after `*link = v`. */
  function StoreNodes(ns: seq<RbNode>, link: Slot, v: int): seq<RbNode>
    requires SlotIn(link, ns)
  {
    match link
    case RootSlot => ns
    case LeftOf(n) => ns[n := ns[n].(left := v)]
    case RightOf(n) => ns[n := ns[n].(right := v)]
  }

  function StoreRoot(root: int, link: Slot, v: int): int {
    if link.RootSlot? then v else root
  }

  /** The writes of swap_nodes (a != b) up to the links from above: the two records
      copied with their self-references fixed (ns3), then a written into the slot
      of its new parent (ns4, r4), then b (ns5, r5). */
  predicate SwapWrites(ns: seq<RbNode>, root: int, a: int, b: int, aLeft: bool, bLeft: bool,
                       ns3: seq<RbNode>, ns4: seq<RbNode>, r4: int, ns5: seq<RbNode>, r5: int)
  {
    0 <= a < |ns| && 0 <= b < |ns| &&
    aLeft == (ns[a].parent != NIL && 0 <= ns[a].parent < |ns| && ns[ns[a].parent].left == a) &&
    bLeft == (ns[b].parent != NIL && 0 <= ns[b].parent < |ns| && ns[ns[b].parent].left == b) &&
    ns3 == ns[a := Redirect(ns[b], a, b)][b := Redirect(ns[a], b, a)] &&
    SlotIn(ParentSlot(ns3[a].parent, bLeft), ns3) &&
    ns4 == StoreNodes(ns3, ParentSlot(ns3[a].parent, bLeft), a) &&
    r4 == StoreRoot(root, ParentSlot(ns3[a].parent, bLeft), a) &&
    SlotIn(ParentSlot(ns3[b].parent, aLeft), ns4) &&
    ns5 == StoreNodes(ns4, ParentSlot(ns3[b].parent, aLeft), b) &&
    r5 == StoreRoot(r4, ParentSlot(ns3[b].parent, aLeft), b)
  }

  predicate SwapAbove(S: set<int>, ns: seq<RbNode>, root: int, a: int, b: int, aLeft: bool, bLeft: bool,
                      ns3: seq<RbNode>, ns4: seq<RbNode>, r4: int, ns5: seq<RbNode>, r5: int)
  {
    Consistent(ns, S, root) && a in S && b in S && a != b && a >= 0 && b >= 0 &&
    SwapWrites(ns, root, a, b, aLeft, bLeft, ns3, ns4, r4, ns5, r5)
  }

  /** A link is NULL or names a record of the arena. */
  predicate InArena(k: int, ns: seq<RbNode>) {
    k == NIL || 0 <= k < |ns|
  }

  predicate LinksInArena(n: RbNode, ns: seq<RbNode>) {
    InArena(n.parent, ns) && InArena(n.left, ns) && InArena(n.right, ns)
  }

  /** The links of two nodes of a stored tree name records of the arena. */
  lemma SwapPre(t: Tree, ns: seq<RbNode>, root: int, a: int, b: int)
    requires Rep(t, ns, root) && Wf(t) && a in Ids(t) && b in Ids(t)
    ensures 0 <= a < |ns| && 0 <= b < |ns| && LinksInArena(ns[a], ns) && LinksInArena(ns[b], ns)
  {
    RepConsistent(t, ns, root);
    assert NodeOk(ns, Ids(t), a) && NodeOk(ns, Ids(t), b);
    assert ns[a].parent != NIL ==> ParentOk(ns, Ids(t), ns[a].parent, a);
    assert ns[b].parent != NIL ==> ParentOk(ns, Ids(t), ns[b].parent, b);
  }

  /** The writes keep the links of a and b inside the arena. */
  lemma SwapWritesInArena(ns: seq<RbNode>, root: int, a: int, b: int, aLeft: bool, bLeft: bool,
                          ns3: seq<RbNode>, ns4: seq<RbNode>, r4: int, ns5: seq<RbNode>, r5: int)
    requires SwapWrites(ns, root, a, b, aLeft, bLeft, ns3, ns4, r4, ns5, r5)
    requires LinksInArena(ns[a], ns) && LinksInArena(ns[b], ns)
    ensures |ns5| == |ns| && LinksInArena(ns5[a], ns5) && LinksInArena(ns5[b], ns5)
  {
    assert |ns3| == |ns| && LinksInArena(ns3[a], ns3) && LinksInArena(ns3[b], ns3);
    StoreInArena(ns3, ParentSlot(ns3[a].parent, bLeft), a, b);
    StoreInArena(ns4, ParentSlot(ns3[b].parent, aLeft), b, a);
  }

  /** Writing an id of the arena into a slot keeps the links of a and b in the arena. */
  lemma StoreInArena(ns: seq<RbNode>, link: Slot, a: int, b: int)
    requires SlotIn(link, ns) && 0 <= a < |ns| && 0 <= b < |ns|
    requires LinksInArena(ns[a], ns) && LinksInArena(ns[b], ns)
    ensures var ns2 := StoreNodes(ns, link, a);
      |ns2| == |ns| && LinksInArena(ns2[a], ns2) && LinksInArena(ns2[b], ns2)
  {
  }

  /** ... and then the links from below (ns6, ns7). */
  predicate SwapSteps(S: set<int>, ns: seq<RbNode>, root: int, a: int, b: int, aLeft: bool, bLeft: bool,
                      ns3: seq<RbNode>, ns4: seq<RbNode>, r4: int, ns5: seq<RbNode>, r5: int,
                      ns6: seq<RbNode>, ns7: seq<RbNode>)
  {
    SwapAbove(S, ns, root, a, b, aLeft, bLeft, ns3, ns4, r4, ns5, r5) &&
    Adopted(ns5, ns6, a) && Adopted(ns6, ns7, b)
  }

  /** ns3: the records of a and b exchanged, with their links renamed. */
  predicate Copied(ns: seq<RbNode>, ns3: seq<RbNode>, a: int, b: int) {
    0 <= a < |ns| && 0 <= b < |ns| && |ns3| == |ns| &&
    ns3[a] == SwRec(ns[b], a, b) && ns3[b] == SwRec(ns[a], a, b) &&
    forall k :: 0 <= k < |ns| && k != a && k != b ==> ns3[k] == ns[k]
  }

  /** ns5: the links from above written: a into the slot of pa named by bLeft, then
      b into the slot of pb named by aLeft. */
  predicate LinkedAbove(ns3: seq<RbNode>, ns5: seq<RbNode>, a: int, b: int, pa: int, pb: int, aLeft: bool, bLeft: bool) {
    |ns5| == |ns3| &&
    forall k :: 0 <= k < |ns3| ==>
      ns5[k] == ns3[k].(left := if k == pb && aLeft then b else if k == pa && bLeft then a else ns3[k].left,
                        right := if k == pb && !aLeft then b else if k == pa && !bLeft then a else ns3[k].right)
  }

  /** ns7: the children of a, then those of b, name their new parent. */
  predicate LinkedBelow(ns5: seq<RbNode>, ns7: seq<RbNode>, a: int, b: int) {
    0 <= a < |ns5| && 0 <= b < |ns5| && |ns7| == |ns5| &&
    forall k :: 0 <= k < |ns5| ==>
      ns7[k] == ns5[k].(parent := if k == ns5[b].left || k == ns5[b].right then b
                                  else if k == ns5[a].left || k == ns5[a].right then a
                                  else ns5[k].parent)
  }

  lemma SwapAboveParts(S: set<int>, ns: seq<RbNode>, root: int, a: int, b: int, aLeft: bool, bLeft: bool,
                       ns3: seq<RbNode>, ns4: seq<RbNode>, r4: int, ns5: seq<RbNode>, r5: int)
    requires SwapAbove(S, ns, root, a, b, aLeft, bLeft, ns3, ns4, r4, ns5, r5)
    ensures SwapPair(ns, S, a, b, aLeft, bLeft)
    ensures Copied(ns, ns3, a, b)
    ensures LinkedAbove(ns3, ns5, a, b, Sw(ns[b].parent, a, b), Sw(ns[a].parent, a, b), aLeft, bLeft)
    ensures r5 == Sw(root, a, b)
  {
    assert NodeOk(ns, S, a) && NodeOk(ns, S, b);
    assert SwapPair(ns, S, a, b, aLeft, bLeft);
    WritesCopied(ns, root, a, b, aLeft, bLeft, ns3, ns4, r4, ns5, r5);
    WritesLinkedAbove(ns, root, a, b, aLeft, bLeft, ns3, ns4, r4, ns5, r5);
    assert ns[a].parent == NIL ==> root == a;
    assert ns[b].parent == NIL ==> root == b;
    WritesRoot(ns, root, a, b, aLeft, bLeft, ns3, ns4, r4, ns5, r5);
  }

  /** The root pointer after the writes is the renamed one. */
  lemma WritesRoot(ns: seq<RbNode>, root: int, a: int, b: int, aLeft: bool, bLeft: bool,
                   ns3: seq<RbNode>, ns4: seq<RbNode>, r4: int, ns5: seq<RbNode>, r5: int)
    requires SwapWrites(ns, root, a, b, aLeft, bLeft, ns3, ns4, r4, ns5, r5) && a != b
    requires ns[a].parent != a && ns[b].parent != b
    requires ns[a].parent == NIL ==> root == a
    requires ns[b].parent == NIL ==> root == b
    requires root != NIL ==> 0 <= root < |ns| && ns[root].parent == NIL
    ensures r5 == Sw(root, a, b)
  {
    assert ns3[a].parent == Sw(ns[b].parent, a, b) && ns3[b].parent == Sw(ns[a].parent, a, b);
  }

  lemma WritesCopied(ns: seq<RbNode>, root: int, a: int, b: int, aLeft: bool, bLeft: bool,
                     ns3: seq<RbNode>, ns4: seq<RbNode>, r4: int, ns5: seq<RbNode>, r5: int)
    requires SwapWrites(ns, root, a, b, aLeft, bLeft, ns3, ns4, r4, ns5, r5) && a != b
    requires ns[a].parent != a && ns[a].left != a && ns[a].right != a
    requires ns[b].parent != b && ns[b].left != b && ns[b].right != b
    ensures Copied(ns, ns3, a, b)
  {
  }

  lemma WritesLinkedAbove(ns: seq<RbNode>, root: int, a: int, b: int, aLeft: bool, bLeft: bool,
                          ns3: seq<RbNode>, ns4: seq<RbNode>, r4: int, ns5: seq<RbNode>, r5: int)
    requires SwapWrites(ns, root, a, b, aLeft, bLeft, ns3, ns4, r4, ns5, r5) && a != b
    requires ns[a].parent != a && ns[b].parent != b
    ensures LinkedAbove(ns3, ns5, a, b, Sw(ns[b].parent, a, b), Sw(ns[a].parent, a, b), aLeft, bLeft)
  {
    assert ns3[a].parent == Sw(ns[b].parent, a, b) && ns3[b].parent == Sw(ns[a].parent, a, b);
  }

  lemma SwapStepsParts(S: set<int>, ns: seq<RbNode>, root: int, a: int, b: int, aLeft: bool, bLeft: bool,
                       ns3: seq<RbNode>, ns4: seq<RbNode>, r4: int, ns5: seq<RbNode>, r5: int,
                       ns6: seq<RbNode>, ns7: seq<RbNode>)
    requires SwapSteps(S, ns, root, a, b, aLeft, bLeft, ns3, ns4, r4, ns5, r5, ns6, ns7)
    ensures LinkedBelow(ns5, ns7, a, b)
  {
    assert ns6[b].left == ns5[b].left && ns6[b].right == ns5[b].right;
  }

  /** The facts about a and b that swap_nodes relies on. */
  predicate SwapPair(ns: seq<RbNode>, S: set<int>, a: int, b: int, aLeft: bool, bLeft: bool) {
    a in S && b in S && a != b && a >= 0 && b >= 0 &&
    NodeOk(ns, S, a) && NodeOk(ns, S, b) &&
    (ns[a].parent != NIL ==> ParentOk(ns, S, ns[a].parent, a)) &&
    (ns[b].parent != NIL ==> ParentOk(ns, S, ns[b].parent, b)) &&
    aLeft == (ns[a].parent != NIL && ns[ns[a].parent].left == a) &&
    bLeft == (ns[b].parent != NIL && ns[ns[b].parent].left == b)
  }

  /** After the links from above, the records of a and b are the renamed ones. */
  lemma SwapChildLinksPair(S: set<int>, ns: seq<RbNode>, a: int, b: int, aLeft: bool, bLeft: bool,
                           ns3: seq<RbNode>, ns5: seq<RbNode>)
    requires SwapPair(ns, S, a, b, aLeft, bLeft) && Copied(ns, ns3, a, b)
    requires LinkedAbove(ns3, ns5, a, b, Sw(ns[b].parent, a, b), Sw(ns[a].parent, a, b), aLeft, bLeft)
    ensures ns5[a] == SwRec(ns[b], a, b) && ns5[b] == SwRec(ns[a], a, b)
  {
    if ns[a].parent == b {
      assert ns[b].left == a <==> aLeft;
    }
    if ns[b].parent == a {
      assert ns[a].left == b <==> bLeft;
    }
  }

  /** After the links from above, the record of any other node k carries renamed child links. */
  lemma SwapChildLinksOther(S: set<int>, ns: seq<RbNode>, a: int, b: int, aLeft: bool, bLeft: bool,
                            ns3: seq<RbNode>, ns5: seq<RbNode>, k: int)
    requires SwapPair(ns, S, a, b, aLeft, bLeft) && Copied(ns, ns3, a, b)
    requires LinkedAbove(ns3, ns5, a, b, Sw(ns[b].parent, a, b), Sw(ns[a].parent, a, b), aLeft, bLeft)
    requires NodeOk(ns, S, k) && k != a && k != b
    ensures ns5[k] == SwRec(ns[k], a, b).(parent := ns[k].parent)
  {
    assert ns3[k] == ns[k];
  }

  /** After the links from below, the records of a and b are the renamed ones. */
  lemma SwapParentLinkPair(S: set<int>, ns: seq<RbNode>, a: int, b: int, aLeft: bool, bLeft: bool,
                           ns3: seq<RbNode>, ns5: seq<RbNode>, ns7: seq<RbNode>)
    requires SwapPair(ns, S, a, b, aLeft, bLeft) && Copied(ns, ns3, a, b)
    requires LinkedAbove(ns3, ns5, a, b, Sw(ns[b].parent, a, b), Sw(ns[a].parent, a, b), aLeft, bLeft)
    requires LinkedBelow(ns5, ns7, a, b)
    ensures ns7[a] == SwRec(ns[b], a, b) && ns7[b] == SwRec(ns[a], a, b)
  {
    SwapChildLinksPair(S, ns, a, b, aLeft, bLeft, ns3, ns5);
  }

  /** After the links from below, the record of any other node k is the renamed one. */
  lemma SwapParentLinkOther(S: set<int>, ns: seq<RbNode>, a: int, b: int, aLeft: bool, bLeft: bool,
                            ns3: seq<RbNode>, ns5: seq<RbNode>, ns7: seq<RbNode>, k: int)
    requires SwapPair(ns, S, a, b, aLeft, bLeft) && Copied(ns, ns3, a, b)
    requires LinkedAbove(ns3, ns5, a, b, Sw(ns[b].parent, a, b), Sw(ns[a].parent, a, b), aLeft, bLeft)
    requires LinkedBelow(ns5, ns7, a, b)
    requires NodeOk(ns, S, k) && k != a && k != b
    requires ns[k].parent != NIL ==> ParentOk(ns, S, ns[k].parent, k)
    ensures ns7[k] == SwRec(ns[k], a, b)
  {
    SwapChildLinksPair(S, ns, a, b, aLeft, bLeft, ns3, ns5);
    SwapChildLinksOther(S, ns, a, b, aLeft, bLeft, ns3, ns5, k);
    var p := ns[k].parent;
    var byB := k == ns5[b].left || k == ns5[b].right;
    var byA := k == ns5[a].left || k == ns5[a].right;
    assert byB <==> k == ns[a].left || k == ns[a].right;
    assert byA <==> k == ns[b].left || k == ns[b].right;
    assert ns7[k] == ns5[k].(parent := if byB then b else if byA then a else ns5[k].parent);
    if byB {
      assert p == a;
    } else if byA {
      assert p == b;
    } else if p != NIL {
      assert ParentOk(ns, S, p, k);
    }
  }

  /** After the links from below, the records outside S are untouched. */
  lemma SwapOutside(S: set<int>, ns: seq<RbNode>, a: int, b: int, aLeft: bool, bLeft: bool,
                    ns3: seq<RbNode>, ns5: seq<RbNode>, ns7: seq<RbNode>, k: int)
    requires SwapPair(ns, S, a, b, aLeft, bLeft) && Copied(ns, ns3, a, b)
    requires LinkedAbove(ns3, ns5, a, b, Sw(ns[b].parent, a, b), Sw(ns[a].parent, a, b), aLeft, bLeft)
    requires LinkedBelow(ns5, ns7, a, b)
    requires 0 <= k < |ns| && k !in S
    ensures ns7[k] == ns[k]
  {
    SwapChildLinksPair(S, ns, a, b, aLeft, bLeft, ns3, ns5);
    assert ns3[k] == ns[k];
  }

  /** The result of swap_nodes (a != b) is the exchange of a and b. */
  lemma SwapFinal(S: set<int>, ns: seq<RbNode>, root: int, a: int, b: int, aLeft: bool, bLeft: bool,
                  ns3: seq<RbNode>, ns4: seq<RbNode>, r4: int, ns5: seq<RbNode>, r5: int,
                  ns6: seq<RbNode>, ns7: seq<RbNode>)
    requires SwapSteps(S, ns, root, a, b, aLeft, bLeft, ns3, ns4, r4, ns5, r5, ns6, ns7)
    ensures |ns7| == |ns|
    ensures forall j :: j in S ==> 0 <= Sw(j, a, b) < |ns7| && ns7[Sw(j, a, b)] == SwRec(ns[j], a, b)
    ensures forall j :: 0 <= j < |ns| && j !in S ==> ns7[j] == ns[j]
    ensures r5 == Sw(root, a, b)
  {
    SwapAboveParts(S, ns, root, a, b, aLeft, bLeft, ns3, ns4, r4, ns5, r5);
    SwapStepsParts(S, ns, root, a, b, aLeft, bLeft, ns3, ns4, r4, ns5, r5, ns6, ns7);
    SwapParentLinkPair(S, ns, a, b, aLeft, bLeft, ns3, ns5, ns7);
    forall j | j in S
      ensures 0 <= Sw(j, a, b) < |ns7| && ns7[Sw(j, a, b)] == SwRec(ns[j], a, b)
    {
      if j != a && j != b {
        assert NodeOk(ns, S, j);
        assert ns[j].parent != NIL ==> ParentOk(ns, S, ns[j].parent, j);
        SwapParentLinkOther(S, ns, a, b, aLeft, bLeft, ns3, ns5, ns7, j);
      }
    }
    forall j | 0 <= j < |ns| && j !in S
      ensures ns7[j] == ns[j]
    {
      SwapOutside(S, ns, a, b, aLeft, bLeft, ns3, ns5, ns7, j);
    }
  }

  /** What the steps of swap_nodes (a != b) do to the records of an arena storing t. */
  lemma SwapNodesArena(t: Tree, ns: seq<RbNode>, root: int, a: int, b: int, aLeft: bool, bLeft: bool,
                       ns3: seq<RbNode>, ns4: seq<RbNode>, r4: int, ns5: seq<RbNode>, r5: int,
                       ns6: seq<RbNode>, ns7: seq<RbNode>)
    requires Rep(t, ns, root) && Wf(t) && a in Ids(t) && b in Ids(t) && a != b
    requires SwapWrites(ns, root, a, b, aLeft, bLeft, ns3, ns4, r4, ns5, r5)
    requires Adopted(ns5, ns6, a) && Adopted(ns6, ns7, b)
    ensures |ns7| == |ns| && r5 == Sw(root, a, b)
    ensures forall j :: j in Ids(t) ==> 0 <= j < |ns| && 0 <= Sw(j, a, b) < |ns7| && ns7[Sw(j, a, b)] == SwRec(ns[j], a, b)
    ensures forall j :: 0 <= j < |ns| && j !in Ids(t) ==> ns7[j] == ns[j]
  {
    RepConsistent(t, ns, root);
    WfIds(t);
    assert SwapSteps(Ids(t), ns, root, a, b, aLeft, bLeft, ns3, ns4, r4, ns5, r5, ns6, ns7);
    SwapFinal(Ids(t), ns, root, a, b, aLeft, bLeft, ns3, ns4, r4, ns5, r5, ns6, ns7);
  }

  /** What the steps of swap_nodes (a != b) do to an arena storing t. */
  lemma SwapNodesPost(t: Tree, ns: seq<RbNode>, root: int, a: int, b: int, aLeft: bool, bLeft: bool,
                      ns3: seq<RbNode>, ns4: seq<RbNode>, r4: int, ns5: seq<RbNode>, r5: int,
                      ns6: seq<RbNode>, ns7: seq<RbNode>)
    requires Rep(t, ns, root) && Wf(t) && a in Ids(t) && b in Ids(t) && a != b
    requires SwapWrites(ns, root, a, b, aLeft, bLeft, ns3, ns4, r4, ns5, r5)
    requires Adopted(ns5, ns6, a) && Adopted(ns6, ns7, b)
    ensures Rep(SwapT(t, a, b), ns7, r5) && Wf(SwapT(t, a, b)) && |ns7| == |ns|
    ensures r5 == Sw(root, a, b)
    ensures forall j :: j in Ids(t) ==>
      0 <= j < |ns7| && 0 <= Sw(j, a, b) < |ns7| && ns7[Sw(j, a, b)] == SwRec(ns[j], a, b)
    ensures forall i :: 0 <= i < |ns7| && i !in Ids(SwapT(t, a, b)) ==> ns7[i] == ns[i]
  {
    SwapNodesArena(t, ns, root, a, b, aLeft, bLeft, ns3, ns4, r4, ns5, r5, ns6, ns7);
    WfIds(t);
    LinkedSwap(t, NIL, ns, ns7, a, b);
    SwapRedBlack(t, a, b);
    SwapKeepsOthers(t, a, b, ns, ns7);
  }

  /** The ids outside the renamed tree are those outside the tree. */
  lemma SwapKeepsOthers(t: Tree, a: int, b: int, ns: seq<RbNode>, ns7: seq<RbNode>)
    requires a in Ids(t) && b in Ids(t) && |ns7| == |ns|
    requires forall j :: 0 <= j < |ns| && j !in Ids(t) ==> ns7[j] == ns[j]
    ensures forall i :: 0 <= i < |ns7| && i !in Ids(SwapT(t, a, b)) ==> ns7[i] == ns[i]
  {
    SwapIds(t, a, b);
    forall i | 0 <= i < |ns7| && i !in Ids(SwapT(t, a, b))
      ensures ns7[i] == ns[i]
    {
      assert Sw(i, a, b) !in Ids(t);
      assert i != a && i != b;
    }
  }
}
