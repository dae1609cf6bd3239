/** The colour bookkeeping of rb_insert_color and of rb_del's double-black fixup,
    one loop case at a time, on abstract trees. Each lemma takes the neighbourhood
    a case starts from and states the invariant for the neighbourhood it leaves. */
module RbCases {
  import opened RbModel
  import opened RbLemmas

  // ===== insertion =====

  /** Loop invariant of rb_insert_color, with `sub` the subtree of the cursor `node`
      and `ctx` its path: the only RED-RED pair can be `node` and its parent, the
      black counts are balanced, and the root is BLACK unless `node` is the root. */
  predicate InsInv(ctx: Ctx, sub: Tree) {
    sub.Node? && sub.c == RED &&
    ColorsOk(sub, NIL) && NoRedRed(sub) && Bal(sub, NIL) &&
    CtxColorsOk(ctx, NIL) && CtxNoRedRed(ctx, false) && CtxBal(ctx, BH(sub, NIL), NIL) &&
    (!ctx.Top? ==> TopColor(ctx) == BLACK)
  }

  /** node and p on opposite sides of their parents (a zig-zag). */
  predicate ZigZag(ctx: Ctx) {
    (ctx.InR? && ctx.up.InL?) || (ctx.InL? && ctx.up.InR?)
  }

  /** Termination measure of rb_insert_color: the zig-zag step keeps the depth. */
  function InsMeasure(ctx: Ctx): nat {
    2 * Depth(ctx) + (if ZigZag(ctx) then 1 else 0)
  }

  lemma InsStart(ctx: Ctx, n: int)
    requires RedBlack(Plug(ctx, Nil))
    ensures InsInv(ctx, Node(Nil, n, RED, Nil))
  {
    ColorsPlug(ctx, Nil, NIL);
    NoRedRedPlug(ctx, Nil);
    BalPlug(ctx, Nil, NIL);
    if !ctx.Top? { RedPlug(ctx, Nil); TopColorOk(ctx); }
  }

  /** Same side on the left (rbt.c:134-137): rotate p up, paint node BLACK, continue at p. */
  lemma InsLeftLeft(ctx2: Ctx, gp: int, cg: int, c: Tree, p: int, b: Tree, sub: Tree)
    requires InsInv(InL(InL(ctx2, gp, cg, c), p, RED, b), sub)
    ensures cg == BLACK
    ensures InsInv(ctx2, Node(Paint(sub, BLACK), p, RED, Node(b, gp, cg, c)))
    ensures InsMeasure(ctx2) < InsMeasure(InL(InL(ctx2, gp, cg, c), p, RED, b))
  {
    var ctx1 := InL(ctx2, gp, cg, c);
    assert CtxColorsOk(ctx1, NIL) && CtxNoRedRed(ctx1, true);
    assert Bal(b, NIL) && BH(b, NIL) == BH(sub, NIL);
    assert CtxBal(ctx1, BH(sub, NIL), NIL);
    assert Bal(c, NIL) && BH(c, NIL) == BH(sub, NIL);
    assert CtxBal(ctx2, BH(sub, NIL) + 1, NIL);
    var sub' := Paint(sub, BLACK);
    assert BH(sub', NIL) == BH(sub, NIL) + 1;
    assert Depth(InL(ctx1, p, RED, b)) == Depth(ctx2) + 2;
    if !ctx2.Top? { assert TopColor(ctx1) == TopColor(ctx2); }
  }

  /** Zig-zag on the left (rbt.c:139): rotate node up through p, continue at p. */
  lemma InsLeftRight(ctx2: Ctx, gp: int, cg: int, c: Tree, p: int, a: Tree, sub: Tree)
    requires InsInv(InR(a, p, RED, InL(ctx2, gp, cg, c)), sub)
    ensures InsInv(InL(InL(ctx2, gp, cg, c), sub.id, RED, sub.r), Node(a, p, RED, sub.l))
    ensures InsMeasure(InL(InL(ctx2, gp, cg, c), sub.id, RED, sub.r)) < InsMeasure(InR(a, p, RED, InL(ctx2, gp, cg, c)))
  {
    var ctx1 := InL(ctx2, gp, cg, c);
    assert CtxColorsOk(ctx1, NIL) && CtxNoRedRed(ctx1, true);
    assert Bal(a, NIL) && BH(a, NIL) == BH(sub, NIL);
    assert CtxBal(ctx1, BH(sub, NIL), NIL);
    assert Depth(InL(ctx1, sub.id, RED, sub.r)) == Depth(InR(a, p, RED, ctx1));
  }

  /** Same side on the right (rbt.c:142-144). */
  lemma InsRightRight(ctx2: Ctx, gp: int, cg: int, c: Tree, p: int, b: Tree, sub: Tree)
    requires InsInv(InR(b, p, RED, InR(c, gp, cg, ctx2)), sub)
    ensures cg == BLACK
    ensures InsInv(ctx2, Node(Node(c, gp, cg, b), p, RED, Paint(sub, BLACK)))
    ensures InsMeasure(ctx2) < InsMeasure(InR(b, p, RED, InR(c, gp, cg, ctx2)))
  {
    var ctx1 := InR(c, gp, cg, ctx2);
    assert CtxColorsOk(ctx1, NIL) && CtxNoRedRed(ctx1, true);
    assert Bal(b, NIL) && BH(b, NIL) == BH(sub, NIL);
    assert CtxBal(ctx1, BH(sub, NIL), NIL);
    assert Bal(c, NIL) && BH(c, NIL) == BH(sub, NIL);
    assert CtxBal(ctx2, BH(sub, NIL) + 1, NIL);
    var sub' := Paint(sub, BLACK);
    assert BH(sub', NIL) == BH(sub, NIL) + 1;
    assert BH(Node(c, gp, cg, b), NIL) == BH(sub, NIL) + 1;
    assert Depth(InR(b, p, RED, ctx1)) == Depth(ctx2) + 2;
    if !ctx2.Top? { assert TopColor(ctx1) == TopColor(ctx2); }
  }

  /** Zig-zag on the right (rbt.c:146). */
  lemma InsRightLeft(ctx2: Ctx, gp: int, cg: int, c: Tree, p: int, a: Tree, sub: Tree)
    requires InsInv(InL(InR(c, gp, cg, ctx2), p, RED, a), sub)
    ensures InsInv(InR(sub.l, sub.id, RED, InR(c, gp, cg, ctx2)), Node(sub.r, p, RED, a))
    ensures InsMeasure(InR(sub.l, sub.id, RED, InR(c, gp, cg, ctx2))) < InsMeasure(InL(InR(c, gp, cg, ctx2), p, RED, a))
  {
    var ctx1 := InR(c, gp, cg, ctx2);
    assert CtxColorsOk(ctx1, NIL) && CtxNoRedRed(ctx1, true);
    assert Bal(a, NIL) && BH(a, NIL) == BH(sub, NIL);
    assert CtxBal(ctx1, BH(sub, NIL), NIL);
    assert Depth(InR(sub.l, sub.id, RED, ctx1)) == Depth(InL(ctx1, p, RED, a));
  }

  /** Leaving the loop (rbt.c:153-155) yields a red-black tree. */
  lemma InsExit(ctx: Ctx, sub: Tree)
    requires InsInv(ctx, sub)
    requires ctx.Top? || ctx.c != RED
    ensures RedBlack(Plug(ctx, if ctx.Top? then Paint(sub, BLACK) else sub))
  {
    var t := if ctx.Top? then Paint(sub, BLACK) else sub;
    ColorsPlug(ctx, t, NIL);
    NoRedRedPlug(ctx, t);
    BalPlug(ctx, t, NIL);
    if !ctx.Top? {
      RedPlug(ctx, t);
      assert CtxNoRedRed(ctx, true);
    }
  }

  // ===== deletion =====

  /** Loop invariant of rb_del's fixup, with `sub` the subtree of `current` and `x`
      the node to unlink: only `current` may be DOUBLE_BLACK, there is no RED-RED
      pair, and the black counts balance once `x` is accounted as removed. */
  predicate DelInv(ctx: Ctx, sub: Tree, x: int) {
    sub.Node? && (sub.c == BLACK || sub.c == DOUBLE_BLACK) &&
    ColorsOk(sub.l, NIL) && ColorsOk(sub.r, NIL) && CtxColorsOk(ctx, NIL) &&
    NoRedRed(sub) && CtxNoRedRed(ctx, false) &&
    Bal(sub, x) && CtxBal(ctx, BH(sub, x), x) &&
    (!ctx.Top? ==> TopColor(ctx) == BLACK) && x !in CtxIds(ctx)
  }

  /** Which case the next iteration takes: 0 for Case 6, 1 for Case 5, 2 otherwise. */
  function Phase(ctx: Ctx): nat {
    match ctx
    case Top => 2
    case InL(_, _, _, s) =>
      if s.Nil? || s.c == RED then 2 else if Red(s.r) then 0 else if Red(s.l) then 1 else 2
    case InR(s, _, _, _) =>
      if s.Nil? || s.c == RED then 2 else if Red(s.l) then 0 else if Red(s.r) then 1 else 2
  }

  /** Termination measure of the fixup loop: Case 3 climbs, Case 4 descends one
      level but leaves a RED parent, Case 5 prepares Case 6, Case 6 ends it. */
  function DelMeasure(ctx: Ctx, sub: Tree): nat {
    if ctx.Top? || !sub.Node? || sub.c != DOUBLE_BLACK then 0
    else 1 + Phase(ctx) + (if ctx.c == RED then 0 else 3 * (Depth(ctx) + 1))
  }

  lemma DelStart(ctx: Ctx, x: int)
    requires RedBlack(Plug(ctx, Node(Nil, x, BLACK, Nil))) && x >= 0 && x !in CtxIds(ctx)
    ensures DelInv(ctx, Node(Nil, x, DOUBLE_BLACK, Nil), x)
  {
    var leaf := Node(Nil, x, BLACK, Nil);
    ColorsPlug(ctx, leaf, NIL);
    NoRedRedPlug(ctx, leaf);
    BalPlug(ctx, leaf, NIL);
    CtxBalOther(ctx, 1, x, NIL);
    if !ctx.Top? { RedPlug(ctx, leaf); TopColorOk(ctx); }
  }

  /** While current is DOUBLE_BLACK below a parent, its sibling exists (rbt.c:319-321). */
  lemma DelSibling(ctx: Ctx, sub: Tree, x: int)
    requires DelInv(ctx, sub, x) && sub.c == DOUBLE_BLACK && !ctx.Top?
    ensures Sibling(ctx).Node? && (Sibling(ctx).c == RED || Sibling(ctx).c == BLACK)
    ensures Sibling(ctx).l.Node? ==> Sibling(ctx).l.c == RED || Sibling(ctx).l.c == BLACK
    ensures Sibling(ctx).r.Node? ==> Sibling(ctx).r.c == RED || Sibling(ctx).r.c == BLACK
  {
    BHNonNeg(sub.l, x, NIL);
    assert ColorsOk(Sibling(ctx), NIL);
    assert ColorsOk(Sibling(ctx).l, NIL) && ColorsOk(Sibling(ctx).r, NIL);
  }

  /** Case 3, current on the left (rbt.c:323-330). */
  lemma DelCase3L(ctx1: Ctx, p: int, cp: int, sub: Tree, cl: Tree, s: int, cr: Tree, x: int)
    requires DelInv(InL(ctx1, p, cp, Node(cl, s, BLACK, cr)), sub, x)
    requires sub.c == DOUBLE_BLACK && !Red(cl) && !Red(cr)
    ensures DelInv(ctx1, Node(Paint(sub, BLACK), p, cp + 1, Node(cl, s, RED, cr)), x)
    ensures DelMeasure(ctx1, Node(Paint(sub, BLACK), p, cp + 1, Node(cl, s, RED, cr)))
          < DelMeasure(InL(ctx1, p, cp, Node(cl, s, BLACK, cr)), sub)
  {
    var sib := Node(cl, s, BLACK, cr);
    var ctx := InL(ctx1, p, cp, sib);
    BHNonNeg(sub.l, x, NIL);
    assert CtxColorsOk(ctx1, NIL) && ColorsOk(sib, NIL) && (cp == RED || cp == BLACK);
    assert Bal(sib, x) && BH(sib, x) == BH(sub, x);
    assert CtxBal(ctx1, BH(sub, x) + Weight(p, cp, x), x);
    assert p != x && s != x;
    assert BH(Paint(sub, BLACK), x) == BH(sub, x) - 1;
    assert BH(Node(cl, s, RED, cr), x) == BH(sub, x) - 1;
    assert CtxNoRedRed(ctx1, cp == RED);
    if cp == RED { CtxNoRedRedWeaken(ctx1); }
    if !ctx1.Top? { assert TopColor(ctx) == TopColor(ctx1); }
    assert Depth(ctx) == Depth(ctx1) + 1;
  }

  /** Case 3, current on the right. */
  lemma DelCase3R(ctx1: Ctx, p: int, cp: int, sub: Tree, cl: Tree, s: int, cr: Tree, x: int)
    requires DelInv(InR(Node(cl, s, BLACK, cr), p, cp, ctx1), sub, x)
    requires sub.c == DOUBLE_BLACK && !Red(cl) && !Red(cr)
    ensures DelInv(ctx1, Node(Node(cl, s, RED, cr), p, cp + 1, Paint(sub, BLACK)), x)
    ensures DelMeasure(ctx1, Node(Node(cl, s, RED, cr), p, cp + 1, Paint(sub, BLACK)))
          < DelMeasure(InR(Node(cl, s, BLACK, cr), p, cp, ctx1), sub)
  {
    var sib := Node(cl, s, BLACK, cr);
    var ctx := InR(sib, p, cp, ctx1);
    BHNonNeg(sub.l, x, NIL);
    assert CtxColorsOk(ctx1, NIL) && ColorsOk(sib, NIL) && (cp == RED || cp == BLACK);
    assert Bal(sib, x) && BH(sib, x) == BH(sub, x);
    assert CtxBal(ctx1, BH(sub, x) + Weight(p, cp, x), x);
    assert p != x && s != x;
    assert BH(Paint(sub, BLACK), x) == BH(sub, x) - 1;
    assert BH(Node(cl, s, RED, cr), x) == BH(sub, x) - 1;
    assert CtxNoRedRed(ctx1, cp == RED);
    if cp == RED { CtxNoRedRedWeaken(ctx1); }
    if !ctx1.Top? { assert TopColor(ctx) == TopColor(ctx1); }
    assert Depth(ctx) == Depth(ctx1) + 1;
  }

  /** Case 4, current on the left: the RED sibling is rotated up (rbt.c:369-376). */
  lemma DelCase4L(ctx1: Ctx, p: int, cp: int, sub: Tree, cl: Tree, s: int, cr: Tree, x: int)
    requires DelInv(InL(ctx1, p, cp, Node(cl, s, RED, cr)), sub, x)
    requires sub.c == DOUBLE_BLACK
    ensures cp == BLACK
    ensures DelInv(InL(InL(ctx1, s, BLACK, cr), p, RED, cl), sub, x)
    ensures DelMeasure(InL(InL(ctx1, s, BLACK, cr), p, RED, cl), sub)
          < DelMeasure(InL(ctx1, p, cp, Node(cl, s, RED, cr)), sub)
  {
    var sib := Node(cl, s, RED, cr);
    var ctx := InL(ctx1, p, cp, sib);
    var mid := InL(ctx1, s, BLACK, cr);
    var ctx' := InL(mid, p, RED, cl);
    assert CtxColorsOk(ctx1, NIL) && ColorsOk(sib, NIL);
    assert CtxNoRedRed(ctx1, cp == RED) && NoRedRed(sib) && cp != RED;
    assert p != x && s != x;
    assert Bal(sib, x) && BH(sib, x) == BH(sub, x);
    assert Bal(cl, x) && Bal(cr, x) && BH(cl, x) == BH(sub, x) && BH(cr, x) == BH(sub, x);
    assert CtxBal(ctx1, BH(sub, x) + 1, x);
    assert CtxBal(mid, BH(sub, x), x);
    assert CtxNoRedRed(mid, true);
    if !ctx1.Top? {
      assert TopColor(ctx) == TopColor(ctx1);
      assert TopColor(ctx') == TopColor(mid) == TopColor(ctx1);
    }
    assert CtxIds(ctx') == CtxIds(ctx);
  }

  /** Case 4, current on the right (rbt.c:373-374). */
  lemma DelCase4R(ctx1: Ctx, p: int, cp: int, sub: Tree, cl: Tree, s: int, cr: Tree, x: int)
    requires DelInv(InR(Node(cl, s, RED, cr), p, cp, ctx1), sub, x)
    requires sub.c == DOUBLE_BLACK
    ensures cp == BLACK
    ensures DelInv(InR(cr, p, RED, InR(cl, s, BLACK, ctx1)), sub, x)
    ensures DelMeasure(InR(cr, p, RED, InR(cl, s, BLACK, ctx1)), sub)
          < DelMeasure(InR(Node(cl, s, RED, cr), p, cp, ctx1), sub)
  {
    var sib := Node(cl, s, RED, cr);
    var ctx := InR(sib, p, cp, ctx1);
    var mid := InR(cl, s, BLACK, ctx1);
    var ctx' := InR(cr, p, RED, mid);
    assert CtxColorsOk(ctx1, NIL) && ColorsOk(sib, NIL);
    assert CtxNoRedRed(ctx1, cp == RED) && NoRedRed(sib) && cp != RED;
    assert p != x && s != x;
    assert Bal(sib, x) && BH(sib, x) == BH(sub, x);
    assert Bal(cl, x) && Bal(cr, x) && BH(cl, x) == BH(sub, x) && BH(cr, x) == BH(sub, x);
    assert CtxBal(ctx1, BH(sub, x) + 1, x);
    assert CtxBal(mid, BH(sub, x), x);
    assert CtxNoRedRed(mid, true);
    if !ctx1.Top? {
      assert TopColor(ctx) == TopColor(ctx1);
      assert TopColor(ctx') == TopColor(mid) == TopColor(ctx1);
    }
    assert CtxIds(ctx') == CtxIds(ctx);
  }

  /** Case 5, current on the left: the near nephew is rotated up (rbt.c:336-341). */
  lemma DelCase5L(ctx1: Ctx, p: int, cp: int, sub: Tree, l1: Tree, cl: int, l2: Tree, s: int, cr: Tree, x: int)
    requires DelInv(InL(ctx1, p, cp, Node(Node(l1, cl, RED, l2), s, BLACK, cr)), sub, x)
    requires sub.c == DOUBLE_BLACK && !Red(cr)
    ensures DelInv(InL(ctx1, p, cp, Node(l1, cl, BLACK, Node(l2, s, RED, cr))), sub, x)
    ensures DelMeasure(InL(ctx1, p, cp, Node(l1, cl, BLACK, Node(l2, s, RED, cr))), sub)
          < DelMeasure(InL(ctx1, p, cp, Node(Node(l1, cl, RED, l2), s, BLACK, cr)), sub)
  {
    var near := Node(l1, cl, RED, l2);
    var sib := Node(near, s, BLACK, cr);
    var sib' := Node(l1, cl, BLACK, Node(l2, s, RED, cr));
    assert ColorsOk(sib, NIL) && ColorsOk(near, NIL) && NoRedRed(sib) && NoRedRed(near);
    assert Ids(near) == Ids(l1) + {cl} + Ids(l2);
    assert Ids(sib) == Ids(near) + {s} + Ids(cr);
    assert Ids(sib') == Ids(l1) + {cl} + (Ids(l2) + {s} + Ids(cr));
    assert s != x && cl != x;
    assert Bal(sib, x) && Bal(near, x) && BH(near, x) == BH(cr, x);
    assert BH(near, x) == BH(l1, x) == BH(l2, x);
    var low := Node(l2, s, RED, cr);
    assert BH(low, x) == BH(l2, x) && Bal(low, x);
    assert BH(sib', x) == BH(l1, x) + 1 == BH(sib, x);
    assert Bal(sib', x);
    assert ColorsOk(low, NIL) && ColorsOk(sib', NIL);
    assert NoRedRed(low) && NoRedRed(sib');
    assert CtxIds(InL(ctx1, p, cp, sib')) == CtxIds(InL(ctx1, p, cp, sib));
    assert Phase(InL(ctx1, p, cp, sib)) == 1;
  }

  /** Case 5, current on the right (rbt.c:353-358). */
  lemma DelCase5R(ctx1: Ctx, p: int, cp: int, sub: Tree, cl: Tree, s: int, r1: Tree, cr: int, r2: Tree, x: int)
    requires DelInv(InR(Node(cl, s, BLACK, Node(r1, cr, RED, r2)), p, cp, ctx1), sub, x)
    requires sub.c == DOUBLE_BLACK && !Red(cl)
    ensures DelInv(InR(Node(Node(cl, s, RED, r1), cr, BLACK, r2), p, cp, ctx1), sub, x)
    ensures DelMeasure(InR(Node(Node(cl, s, RED, r1), cr, BLACK, r2), p, cp, ctx1), sub)
          < DelMeasure(InR(Node(cl, s, BLACK, Node(r1, cr, RED, r2)), p, cp, ctx1), sub)
  {
    var near := Node(r1, cr, RED, r2);
    var sib := Node(cl, s, BLACK, near);
    var sib' := Node(Node(cl, s, RED, r1), cr, BLACK, r2);
    assert ColorsOk(sib, NIL) && ColorsOk(near, NIL) && NoRedRed(sib) && NoRedRed(near);
    assert Ids(near) == Ids(r1) + {cr} + Ids(r2);
    assert Ids(sib) == Ids(cl) + {s} + Ids(near);
    assert Ids(sib') == (Ids(cl) + {s} + Ids(r1)) + {cr} + Ids(r2);
    assert s != x && cr != x;
    assert Bal(sib, x) && Bal(near, x) && BH(near, x) == BH(cl, x);
    assert BH(near, x) == BH(r1, x) == BH(r2, x);
    var low := Node(cl, s, RED, r1);
    assert BH(low, x) == BH(cl, x) && Bal(low, x);
    assert BH(sib', x) == BH(cl, x) + 1 == BH(sib, x);
    assert Bal(sib', x);
    assert ColorsOk(low, NIL) && ColorsOk(sib', NIL);
    assert NoRedRed(low) && NoRedRed(sib');
    assert CtxIds(InR(sib', p, cp, ctx1)) == CtxIds(InR(sib, p, cp, ctx1));
    assert Phase(InR(sib, p, cp, ctx1)) == 1;
  }

  /** Case 6, current on the left: the sibling is rotated up and takes p's colour (rbt.c:343-349). */
  lemma DelCase6L(ctx1: Ctx, p: int, cp: int, sub: Tree, cl: Tree, s: int, r1: Tree, cr: int, r2: Tree, x: int)
    requires DelInv(InL(ctx1, p, cp, Node(cl, s, BLACK, Node(r1, cr, RED, r2))), sub, x)
    requires sub.c == DOUBLE_BLACK
    ensures DelInv(InL(InL(ctx1, s, cp, Node(r1, cr, BLACK, r2)), p, BLACK, cl), Paint(sub, BLACK), x)
  {
    var far := Node(r1, cr, RED, r2);
    var sib := Node(cl, s, BLACK, far);
    var ctx := InL(ctx1, p, cp, sib);
    var mid := InL(ctx1, s, cp, Node(r1, cr, BLACK, r2));
    var ctx' := InL(mid, p, BLACK, cl);
    BHNonNeg(sub.l, x, NIL);
    assert CtxColorsOk(ctx1, NIL) && ColorsOk(sib, NIL) && ColorsOk(far, NIL) && (cp == RED || cp == BLACK);
    assert CtxNoRedRed(ctx1, cp == RED) && NoRedRed(sib) && NoRedRed(far);
    assert Ids(far) == Ids(r1) + {cr} + Ids(r2);
    assert Ids(sib) == Ids(cl) + {s} + Ids(far);
    assert p != x && s != x && cr != x;
    assert Bal(sib, x) && Bal(far, x) && BH(sib, x) == BH(sub, x);
    assert BH(cl, x) == BH(sub, x) - 1 && BH(r1, x) == BH(sub, x) - 1 && BH(r2, x) == BH(sub, x) - 1;
    assert CtxBal(ctx1, BH(sub, x) + Weight(p, cp, x), x);
    assert BH(Paint(sub, BLACK), x) == BH(sub, x) - 1;
    assert CtxBal(mid, BH(sub, x), x);
    assert CtxNoRedRed(mid, false);
    if !ctx1.Top? {
      assert TopColor(ctx) == TopColor(ctx1);
      assert TopColor(ctx') == TopColor(mid) == TopColor(ctx1);
    }
    assert CtxIds(ctx') == CtxIds(ctx);
  }

  /** Case 6, current on the right (rbt.c:360-366). */
  lemma DelCase6R(ctx1: Ctx, p: int, cp: int, sub: Tree, l1: Tree, cl: int, l2: Tree, s: int, cr: Tree, x: int)
    requires DelInv(InR(Node(Node(l1, cl, RED, l2), s, BLACK, cr), p, cp, ctx1), sub, x)
    requires sub.c == DOUBLE_BLACK
    ensures DelInv(InR(cr, p, BLACK, InR(Node(l1, cl, BLACK, l2), s, cp, ctx1)), Paint(sub, BLACK), x)
  {
    var far := Node(l1, cl, RED, l2);
    var sib := Node(far, s, BLACK, cr);
    var ctx := InR(sib, p, cp, ctx1);
    var mid := InR(Node(l1, cl, BLACK, l2), s, cp, ctx1);
    var ctx' := InR(cr, p, BLACK, mid);
    BHNonNeg(sub.l, x, NIL);
    assert CtxColorsOk(ctx1, NIL) && ColorsOk(sib, NIL) && ColorsOk(far, NIL) && (cp == RED || cp == BLACK);
    assert CtxNoRedRed(ctx1, cp == RED) && NoRedRed(sib) && NoRedRed(far);
    assert Ids(far) == Ids(l1) + {cl} + Ids(l2);
    assert Ids(sib) == Ids(far) + {s} + Ids(cr);
    assert p != x && s != x && cl != x;
    assert Bal(sib, x) && Bal(far, x) && BH(sib, x) == BH(sub, x);
    assert BH(cr, x) == BH(sub, x) - 1 && BH(l1, x) == BH(sub, x) - 1 && BH(l2, x) == BH(sub, x) - 1;
    assert CtxBal(ctx1, BH(sub, x) + Weight(p, cp, x), x);
    assert BH(Paint(sub, BLACK), x) == BH(sub, x) - 1;
    assert CtxBal(mid, BH(sub, x), x);
    assert CtxNoRedRed(mid, false);
    if !ctx1.Top? {
      assert TopColor(ctx) == TopColor(ctx1);
      assert TopColor(ctx') == TopColor(mid) == TopColor(ctx1);
    }
    assert CtxIds(ctx') == CtxIds(ctx);
  }

  /** Leaving the fixup loop and forcing a parentless current BLACK (rbt.c:381-383). */
  lemma DelExit(ctx: Ctx, sub: Tree, x: int)
    requires DelInv(ctx, sub, x)
    requires ctx.Top? || sub.c != DOUBLE_BLACK
    ensures var t := Plug(ctx, if ctx.Top? then Paint(sub, BLACK) else sub);
      ColorsOk(t, NIL) && NoRedRed(t) && Bal(t, x) && !Red(t)
  {
    var t := if ctx.Top? then Paint(sub, BLACK) else sub;
    ColorsPlug(ctx, t, NIL);
    NoRedRedPlug(ctx, t);
    BalPlug(ctx, t, x);
    if !ctx.Top? { RedPlug(ctx, t); }
  }

  /** Unlinking the BLACK leaf that the fixup has accounted for (rbt.c:385-389). */
  lemma RemoveBlackLeaf(ctx: Ctx, x: int)
    requires var t := Plug(ctx, Node(Nil, x, BLACK, Nil));
      ColorsOk(t, NIL) && NoRedRed(t) && Bal(t, x) && !Red(t)
    requires x >= 0 && x !in CtxIds(ctx)
    ensures RedBlack(Plug(ctx, Nil))
  {
    var leaf := Node(Nil, x, BLACK, Nil);
    ColorsPlug(ctx, leaf, NIL);
    ColorsPlug(ctx, Nil, NIL);
    NoRedRedPlug(ctx, leaf);
    NoRedRedPlug(ctx, Nil);
    BalPlug(ctx, leaf, x);
    BalPlug(ctx, Nil, NIL);
    CtxBalOther(ctx, 0, x, NIL);
    if !ctx.Top? { RedPlug(ctx, leaf); RedPlug(ctx, Nil); }
  }

  /** Unlinking a RED leaf breaks no rule (rbt.c:305-306). */
  lemma RemoveRedLeaf(ctx: Ctx, x: int)
    requires RedBlack(Plug(ctx, Node(Nil, x, RED, Nil)))
    ensures RedBlack(Plug(ctx, Nil))
  {
    var leaf := Node(Nil, x, RED, Nil);
    ColorsPlug(ctx, leaf, NIL);
    ColorsPlug(ctx, Nil, NIL);
    NoRedRedPlug(ctx, leaf);
    NoRedRedPlug(ctx, Nil);
    BalPlug(ctx, leaf, NIL);
    BalPlug(ctx, Nil, NIL);
    if !ctx.Top? { RedPlug(ctx, leaf); RedPlug(ctx, Nil); CtxNoRedRedWeaken(ctx); }
  }

  // ----- where the node to unlink is -----

  /** Node x is a leaf inside `sub`, coloured BLACK unless it is `sub`'s own
      root (which, while the fixup runs, is the DOUBLE_BLACK `current`). */
  predicate XLeaf(sub: Tree, x: int) {
    x in Ids(sub) &&
    var u := SubAt(sub, x);
    u.Node? && u.l.Nil? && u.r.Nil? && (sub.id != x ==> u.c == BLACK)
  }

  /** Painting the root BLACK keeps x a leaf, now surely BLACK. */
  lemma XLeafPaint(sub: Tree, x: int)
    requires XLeaf(sub, x) && sub.Node?
    ensures XLeaf(Paint(sub, BLACK), x) && SubAt(Paint(sub, BLACK), x) == Node(Nil, x, BLACK, Nil)
  {
    PathToPlug(sub, x);
  }

  /** Case 3 makes the BLACK-painted `sub` a child of p; x stays a BLACK leaf below. */
  lemma XLeafGrow(sub: Tree, x: int, u: Tree)
    requires XLeaf(sub, x) && sub.Node? && u.Node? && u.id != x
    requires (u.l == Paint(sub, BLACK) && x !in Ids(u.r)) || (u.r == Paint(sub, BLACK) && x !in Ids(u.l))
    ensures XLeaf(u, x)
  {
    XLeafPaint(sub, x);
  }

  /** When the fixup is over, x is a BLACK leaf of a red-black tree (x accounted as
      removed); unlinking it leaves a red-black tree, holding every id but x, in the
      same order. */
  lemma DelFinish(ctx: Ctx, sub: Tree, x: int)
    requires DelInv(ctx, sub, x) && XLeaf(sub, x) && Wf(Plug(ctx, sub))
    requires ctx.Top? || sub.c != DOUBLE_BLACK
    ensures var F := Plug(ctx, if ctx.Top? then Paint(sub, BLACK) else sub);
      x in Ids(F) && InOrder(F) == InOrder(Plug(ctx, sub)) && Ids(F) == Ids(Plug(ctx, sub)) && Wf(F)
    ensures var F := Plug(ctx, if ctx.Top? then Paint(sub, BLACK) else sub);
      var P := PathTo(F, x);
      F == Plug(P, Node(Nil, x, BLACK, Nil)) && x !in CtxIds(P) && RedBlack(Plug(P, Nil))
  {
    var s := if ctx.Top? then Paint(sub, BLACK) else sub;
    var F := Plug(ctx, s);
    DelExit(ctx, sub, x);
    XLeafPaint(sub, x);
    PaintPlug(ctx, sub, BLACK);
    assert SubAt(s, x) == Node(Nil, x, BLACK, Nil);
    SubAtPlug(ctx, s, x);
    PathToPlug(F, x);
    var P := PathTo(F, x);
    assert SubAt(F, x) == Node(Nil, x, BLACK, Nil);
    WfPlug(P, Node(Nil, x, BLACK, Nil));
    RemoveBlackLeaf(P, x);
  }
}
