/** How the tree predicates of RbModel distribute over a path and its hole. */
module RbLemmas {
  import opened RbModel

  lemma {:induction false} PlugCompose(outer: Ctx, inner: Ctx, t: Tree)
    ensures Plug(Compose(outer, inner), t) == Plug(outer, Plug(inner, t))
    decreases inner
  {
    match inner
    case Top =>
    case InL(up, id, c, r) => PlugCompose(outer, up, Node(t, id, c, r));
    case InR(l, id, c, up) => PlugCompose(outer, up, Node(l, id, c, t));
  }

  lemma {:induction false} ComposeIds(outer: Ctx, inner: Ctx)
    ensures CtxIds(Compose(outer, inner)) == CtxIds(outer) + CtxIds(inner)
    ensures Depth(Compose(outer, inner)) == Depth(outer) + Depth(inner)
    ensures CtxId(Compose(outer, inner)) == if inner.Top? then CtxId(outer) else CtxId(inner)
    decreases inner
  {
    match inner
    case Top =>
    case InL(up, id, c, r) => ComposeIds(outer, up);
    case InR(l, id, c, up) => ComposeIds(outer, up);
  }

  lemma {:induction false} ComposeOrder(outer: Ctx, inner: Ctx)
    ensures Before(Compose(outer, inner)) == Before(outer) + Before(inner)
    ensures After(Compose(outer, inner)) == After(inner) + After(outer)
    decreases inner
  {
    match inner
    case Top =>
    case InL(up, id, c, r) =>
      ComposeOrder(outer, up);
      var A, R, U := After(up), InOrder(r), After(outer);
      assert [id] + R + (A + U) == ([id] + R + A) + U;
    case InR(l, id, c, up) =>
      ComposeOrder(outer, up);
      var B, L, O := Before(up), InOrder(l), Before(outer);
      assert O + B + L + [id] == O + (B + L + [id]);
  }

  lemma {:induction false} IdsPlug(ctx: Ctx, t: Tree)
    ensures Ids(Plug(ctx, t)) == CtxIds(ctx) + Ids(t)
    decreases ctx
  {
    match ctx
    case Top =>
    case InL(up, id, c, r) => IdsPlug(up, Node(t, id, c, r));
    case InR(l, id, c, up) => IdsPlug(up, Node(l, id, c, t));
  }

  lemma {:induction false} InOrderPlug(ctx: Ctx, t: Tree)
    ensures InOrder(Plug(ctx, t)) == Before(ctx) + InOrder(t) + After(ctx)
    decreases ctx
  {
    match ctx
    case Top =>
    case InL(up, id, c, r) =>
      InOrderPlug(up, Node(t, id, c, r));
      RegroupLeft(Before(up), InOrder(t), id, InOrder(r), After(up));
    case InR(l, id, c, up) =>
      InOrderPlug(up, Node(l, id, c, t));
      RegroupRight(Before(up), InOrder(l), id, InOrder(t), After(up));
  }

  lemma RegroupLeft(B: seq<int>, T: seq<int>, m: int, R: seq<int>, A: seq<int>)
    ensures B + (T + [m] + R) + A == B + T + ([m] + R + A)
  {
  }

  lemma RegroupRight(B: seq<int>, L: seq<int>, m: int, T: seq<int>, A: seq<int>)
    ensures B + (L + [m] + T) + A == (B + L + [m]) + T + A
  {
  }

  lemma {:induction false} SizePlug(ctx: Ctx, t: Tree)
    ensures Size(Plug(ctx, t)) >= Size(t)
    decreases ctx
  {
    match ctx
    case Top =>
    case InL(up, id, c, r) => SizePlug(up, Node(t, id, c, r));
    case InR(l, id, c, up) => SizePlug(up, Node(l, id, c, t));
  }

  lemma {:induction false} WfPlug(ctx: Ctx, t: Tree)
    ensures Wf(Plug(ctx, t)) <==> Wf(t) && CtxWf(ctx) && Ids(t) !! CtxIds(ctx)
    decreases ctx
  {
    match ctx
    case Top =>
    case InL(up, id, c, r) =>
      WfPlug(up, Node(t, id, c, r));
    case InR(l, id, c, up) =>
      WfPlug(up, Node(l, id, c, t));
  }

  lemma {:induction false} NoRedRedPlug(ctx: Ctx, t: Tree)
    ensures NoRedRed(Plug(ctx, t)) <==> NoRedRed(t) && CtxNoRedRed(ctx, Red(t))
    decreases ctx
  {
    match ctx
    case Top =>
    case InL(up, id, c, r) => NoRedRedPlug(up, Node(t, id, c, r));
    case InR(l, id, c, up) => NoRedRedPlug(up, Node(l, id, c, t));
  }

  lemma {:induction false} CtxNoRedRedWeaken(ctx: Ctx)
    requires CtxNoRedRed(ctx, true)
    ensures CtxNoRedRed(ctx, false)
  {
  }

  lemma {:induction false} BalPlug(ctx: Ctx, t: Tree, x: int)
    ensures Bal(Plug(ctx, t), x) <==> Bal(t, x) && CtxBal(ctx, BH(t, x), x)
    decreases ctx
  {
    match ctx
    case Top =>
    case InL(up, id, c, r) => BalPlug(up, Node(t, id, c, r), x);
    case InR(l, id, c, up) =>
      BalPlug(up, Node(l, id, c, t), x);
  }

  lemma {:induction false} ColorsPlug(ctx: Ctx, t: Tree, d: int)
    ensures ColorsOk(Plug(ctx, t), d) <==> ColorsOk(t, d) && CtxColorsOk(ctx, d)
    decreases ctx
  {
    match ctx
    case Top =>
    case InL(up, id, c, r) => ColorsPlug(up, Node(t, id, c, r), d);
    case InR(l, id, c, up) => ColorsPlug(up, Node(l, id, c, t), d);
  }

  lemma {:induction false} RedPlug(ctx: Ctx, t: Tree)
    requires !ctx.Top?
    ensures Red(Plug(ctx, t)) <==> TopColor(ctx) == RED
    decreases ctx
  {
    match ctx
    case InL(up, id, c, r) => if !up.Top? { RedPlug(up, Node(t, id, c, r)); }
    case InR(l, id, c, up) => if !up.Top? { RedPlug(up, Node(l, id, c, t)); }
  }

  lemma {:induction false} TopColorOk(ctx: Ctx)
    requires !ctx.Top? && CtxColorsOk(ctx, NIL)
    ensures TopColor(ctx) == RED || TopColor(ctx) == BLACK
    decreases ctx
  {
    if !ctx.up.Top? { TopColorOk(ctx.up); }
  }

  /** A node's id occurs among the ids of a tree exactly when it occurs in its in-order sequence. */
  lemma {:induction false} InOrderIds(t: Tree)
    ensures forall i :: i in InOrder(t) <==> i in Ids(t)
    ensures |InOrder(t)| == Size(t)
  {
    if t.Node? { InOrderIds(t.l); InOrderIds(t.r); }
  }

  lemma {:induction false} BHNonNeg(t: Tree, x: int, d: int)
    requires ColorsOk(t, d)
    ensures BH(t, x) >= 0
  {
    if t.Node? { BHNonNeg(t.l, x, d); }
  }

  /** Changing which node is the weightless one does not matter where it does not occur. */
  lemma {:induction false} BalOther(t: Tree, x: int, y: int)
    requires (x == NIL || x !in Ids(t)) && (y == NIL || y !in Ids(t))
    ensures BH(t, x) == BH(t, y) && (Bal(t, x) <==> Bal(t, y))
  {
    if t.Node? { BalOther(t.l, x, y); BalOther(t.r, x, y); }
  }

  lemma {:induction false} CtxBalOther(ctx: Ctx, h: int, x: int, y: int)
    requires (x == NIL || x !in CtxIds(ctx)) && (y == NIL || y !in CtxIds(ctx))
    ensures CtxBal(ctx, h, x) <==> CtxBal(ctx, h, y)
    decreases ctx
  {
    match ctx
    case Top =>
    case InL(up, id, c, r) =>
      assert id in CtxIds(ctx) && Ids(r) <= CtxIds(ctx) && CtxIds(up) <= CtxIds(ctx);
      assert Weight(id, c, x) == c == Weight(id, c, y);
      BalOther(r, x, y);
      CtxBalOther(up, h + c, x, y);
      assert CtxBal(ctx, h, x) == (Bal(r, x) && BH(r, x) == h && CtxBal(up, h + c, x));
      assert CtxBal(ctx, h, y) == (Bal(r, y) && BH(r, y) == h && CtxBal(up, h + c, y));
    case InR(l, id, c, up) =>
      assert id in CtxIds(ctx) && Ids(l) <= CtxIds(ctx) && CtxIds(up) <= CtxIds(ctx);
      assert Weight(id, c, x) == c == Weight(id, c, y);
      BalOther(l, x, y);
      CtxBalOther(up, h + c, x, y);
      assert CtxBal(ctx, h, x) == (Bal(l, x) && BH(l, x) == h && CtxBal(up, h + c, x));
      assert CtxBal(ctx, h, y) == (Bal(l, y) && BH(l, y) == h && CtxBal(up, h + c, y));
  }

  lemma {:induction false} WfIds(t: Tree)
    requires Wf(t)
    ensures forall i :: i in Ids(t) ==> i >= 0
  {
    if t.Node? { WfIds(t.l); WfIds(t.r); }
  }

  /** Rotations keep ids distinct. */
  lemma WfRot(t: Tree)
    requires Wf(t) && t.Node?
    ensures t.l.Node? ==> Wf(RotR(t))
    ensures t.r.Node? ==> Wf(RotL(t))
  {
  }

  /** A rotation in the hole keeps ids distinct and keeps the in-order sequence. */
  lemma RotPlug(ctx: Ctx, t: Tree)
    requires Wf(Plug(ctx, t)) && t.Node?
    ensures t.l.Node? ==>
      Wf(Plug(ctx, RotR(t))) && InOrder(Plug(ctx, RotR(t))) == InOrder(Plug(ctx, t)) &&
      Ids(Plug(ctx, RotR(t))) == Ids(Plug(ctx, t))
    ensures t.r.Node? ==>
      Wf(Plug(ctx, RotL(t))) && InOrder(Plug(ctx, RotL(t))) == InOrder(Plug(ctx, t)) &&
      Ids(Plug(ctx, RotL(t))) == Ids(Plug(ctx, t))
  {
    WfPlug(ctx, t);
    IdsPlug(ctx, t);
    InOrderPlug(ctx, t);
    WfRot(t);
    if t.l.Node? {
      WfPlug(ctx, RotR(t));
      InOrderPlug(ctx, RotR(t));
      IdsPlug(ctx, RotR(t));
    }
    if t.r.Node? {
      WfPlug(ctx, RotL(t));
      InOrderPlug(ctx, RotL(t));
      IdsPlug(ctx, RotL(t));
    }
  }

  /** Recolouring a node moves no node. */
  lemma PaintPlug(ctx: Ctx, t: Tree, c: int)
    requires t.Node?
    ensures InOrder(Plug(ctx, Paint(t, c))) == InOrder(Plug(ctx, t))
    ensures Ids(Plug(ctx, Paint(t, c))) == Ids(Plug(ctx, t))
    ensures Wf(Plug(ctx, Paint(t, c))) == Wf(Plug(ctx, t))
  {
    InOrderPlug(ctx, t);
    InOrderPlug(ctx, Paint(t, c));
    IdsPlug(ctx, t);
    IdsPlug(ctx, Paint(t, c));
    WfPlug(ctx, t);
    WfPlug(ctx, Paint(t, c));
  }

  // ----- finding a node -----

  lemma {:induction false} PathToPlug(t: Tree, x: int)
    requires x in Ids(t)
    ensures SubAt(t, x).Node? && SubAt(t, x).id == x
    ensures Plug(PathTo(t, x), SubAt(t, x)) == t
  {
    if t.id != x {
      if x in Ids(t.l) {
        PathToPlug(t.l, x);
        PlugCompose(InL(Top, t.id, t.c, t.r), PathTo(t.l, x), SubAt(t.l, x));
      } else {
        PathToPlug(t.r, x);
        PlugCompose(InR(t.l, t.id, t.c, Top), PathTo(t.r, x), SubAt(t.r, x));
      }
    }
  }

  /** The leftmost node of a tree has no left child and comes first in order. */
  lemma {:induction false} LeftPathPlug(t: Tree)
    requires t.Node?
    ensures Plug(LeftPath(t), LeftNode(t)) == t
    ensures LeftNode(t).Node? && LeftNode(t).l.Nil?
    ensures Before(LeftPath(t)) == []
    ensures Size(LeftNode(t)) <= Size(t)
  {
    if t.l.Node? {
      LeftPathPlug(t.l);
      PlugCompose(InL(Top, t.id, t.c, t.r), LeftPath(t.l), LeftNode(t.l));
      ComposeOrder(InL(Top, t.id, t.c, t.r), LeftPath(t.l));
    }
  }

  /** The rightmost node of a tree has no right child and comes last in order. */
  lemma {:induction false} RightPathPlug(t: Tree)
    requires t.Node?
    ensures Plug(RightPath(t), RightNode(t)) == t
    ensures RightNode(t).Node? && RightNode(t).r.Nil?
    ensures After(RightPath(t)) == []
    ensures Size(RightNode(t)) <= Size(t)
  {
    if t.r.Node? {
      RightPathPlug(t.r);
      PlugCompose(InR(t.l, t.id, t.c, Top), RightPath(t.r), RightNode(t.r));
      ComposeOrder(InR(t.l, t.id, t.c, Top), RightPath(t.r));
    }
  }

  // ----- swapping two ids -----

  lemma {:induction false} SwapPlug(ctx: Ctx, t: Tree, a: int, b: int)
    ensures SwapT(Plug(ctx, t), a, b) == Plug(SwapC(ctx, a, b), SwapT(t, a, b))
    decreases ctx
  {
    match ctx
    case Top =>
    case InL(up, id, c, r) => SwapPlug(up, Node(t, id, c, r), a, b);
    case InR(l, id, c, up) => SwapPlug(up, Node(l, id, c, t), a, b);
  }

  lemma {:induction false} SwapCompose(outer: Ctx, inner: Ctx, a: int, b: int)
    ensures SwapC(Compose(outer, inner), a, b) == Compose(SwapC(outer, a, b), SwapC(inner, a, b))
    decreases inner
  {
    match inner
    case Top =>
    case InL(up, id, c, r) => SwapCompose(outer, up, a, b);
    case InR(l, id, c, up) => SwapCompose(outer, up, a, b);
  }

  lemma {:induction false} SwapTUnchanged(t: Tree, a: int, b: int)
    requires a !in Ids(t) && b !in Ids(t)
    ensures SwapT(t, a, b) == t
  {
    if t.Node? { SwapTUnchanged(t.l, a, b); SwapTUnchanged(t.r, a, b); }
  }

  lemma {:induction false} SwapCUnchanged(ctx: Ctx, a: int, b: int)
    requires a !in CtxIds(ctx) && b !in CtxIds(ctx)
    ensures SwapC(ctx, a, b) == ctx
    decreases ctx
  {
    match ctx
    case Top =>
    case InL(up, id, c, r) => SwapCUnchanged(up, a, b); SwapTUnchanged(r, a, b);
    case InR(l, id, c, up) => SwapCUnchanged(up, a, b); SwapTUnchanged(l, a, b);
  }

  lemma {:induction false} SwapSame(t: Tree, a: int)
    ensures SwapT(t, a, a) == t
  {
    if t.Node? { SwapSame(t.l, a); SwapSame(t.r, a); }
  }

  lemma {:induction false} SwapIds(t: Tree, a: int, b: int)
    ensures forall i :: i in Ids(SwapT(t, a, b)) <==> Sw(i, a, b) in Ids(t)
  {
    if t.Node? { SwapIds(t.l, a, b); SwapIds(t.r, a, b); }
  }

  /** Exchanging two ids of a tree leaves its set of ids as it was. */
  lemma SwapIdsSame(t: Tree, a: int, b: int)
    requires a in Ids(t) && b in Ids(t)
    ensures Ids(SwapT(t, a, b)) == Ids(t)
  {
    SwapIds(t, a, b);
    forall i | i in Ids(t)
      ensures i in Ids(SwapT(t, a, b))
    {
      assert Sw(i, a, b) in Ids(t);
    }
    forall i | i in Ids(SwapT(t, a, b))
      ensures i in Ids(t)
    {
      assert Sw(i, a, b) in Ids(t);
    }
  }

  /** Exchanging two ids keeps ids distinct and keeps every colour in its position. */
  lemma {:induction false} SwapRedBlack(t: Tree, a: int, b: int)
    requires Wf(t) && a >= 0 && b >= 0
    ensures Wf(SwapT(t, a, b))
    ensures Red(SwapT(t, a, b)) == Red(t)
    ensures ColorsOk(SwapT(t, a, b), NIL) == ColorsOk(t, NIL)
    ensures NoRedRed(SwapT(t, a, b)) == NoRedRed(t)
    ensures BH(SwapT(t, a, b), NIL) == BH(t, NIL) && Bal(SwapT(t, a, b), NIL) == Bal(t, NIL)
  {
    if t.Node? {
      SwapRedBlack(t.l, a, b);
      SwapRedBlack(t.r, a, b);
      SwapIds(t.l, a, b);
      SwapIds(t.r, a, b);
      var u := SwapT(t, a, b);
      assert Sw(Sw(t.id, a, b), a, b) == t.id;
      forall i | i in Ids(u.l) ensures i !in Ids(u.r) {
        assert Sw(i, a, b) in Ids(t.l);
      }
    }
  }

  // ----- in-order neighbours and removal -----

  /** The leftmost node comes first in order, the rightmost one last. */
  lemma {:induction false} LeftNodeFirst(t: Tree)
    requires t.Node?
    ensures InOrder(t) != [] && InOrder(t)[0] == LeftNode(t).id
  {
    if t.l.Node? { LeftNodeFirst(t.l); }
  }

  lemma {:induction false} RightNodeLast(t: Tree)
    requires t.Node?
    ensures InOrder(t) != [] && InOrder(t)[|InOrder(t)| - 1] == RightNode(t).id
  {
    if t.r.Node? { RightNodeLast(t.r); }
  }

  lemma Regroup(B: seq<int>, L: seq<int>, m: int, R: seq<int>, A: seq<int>)
    ensures B + (L + [m] + R) + A == (B + L) + [m] + (R + A)
  {
  }

  lemma AtJoin(A: seq<int>, m: int, B: seq<int>)
    ensures |A + [m] + B| == |A| + 1 + |B| && (A + [m] + B)[|A|] == m
    ensures B != [] ==> (A + [m] + B)[|A| + 1] == B[0]
    ensures A != [] ==> (A + [m] + B)[|A| - 1] == A[|A| - 1]
  {
  }

  /** Position of the node in the hole of `ctx` in the in-order sequence of the tree. */
  function Pos(ctx: Ctx, t: Tree): nat
    requires t.Node?
  {
    |Before(ctx)| + Size(t.l)
  }

  /** The leftmost node of the right subtree comes right after a node in order. */
  lemma SuccessorAt(ctx: Ctx, t: Tree)
    requires t.Node? && t.r.Node?
    ensures var S := InOrder(Plug(ctx, t));
      Pos(ctx, t) + 1 < |S| && S[Pos(ctx, t)] == t.id && S[Pos(ctx, t) + 1] == LeftNode(t.r).id
  {
    InOrderPlug(ctx, t);
    InOrderIds(t.l);
    LeftNodeFirst(t.r);
    Regroup(Before(ctx), InOrder(t.l), t.id, InOrder(t.r), After(ctx));
    AtJoin(Before(ctx) + InOrder(t.l), t.id, InOrder(t.r) + After(ctx));
  }

  /** The rightmost node of the left subtree comes right before a node in order. */
  lemma PredecessorAt(ctx: Ctx, t: Tree)
    requires t.Node? && t.l.Node?
    ensures var S := InOrder(Plug(ctx, t));
      1 <= Pos(ctx, t) < |S| && S[Pos(ctx, t)] == t.id && S[Pos(ctx, t) - 1] == RightNode(t.l).id
  {
    InOrderPlug(ctx, t);
    InOrderIds(t.l);
    RightNodeLast(t.l);
    Regroup(Before(ctx), InOrder(t.l), t.id, InOrder(t.r), After(ctx));
    AtJoin(Before(ctx) + InOrder(t.l), t.id, InOrder(t.r) + After(ctx));
  }

  lemma {:induction false} WithoutConcat(s1: seq<int>, s2: seq<int>, x: int)
    ensures Without(s1 + s2, x) == Without(s1, x) + Without(s2, x)
  {
    if s1 == [] {
      assert s1 + s2 == s2;
    } else {
      var h := if s1[0] == x then [] else [s1[0]];
      assert (s1 + s2)[0] == s1[0] && (s1 + s2)[1..] == s1[1..] + s2;
      WithoutConcat(s1[1..], s2, x);
      assert Without(s1 + s2, x) == h + (Without(s1[1..], x) + Without(s2, x));
      assert Without(s1, x) == h + Without(s1[1..], x);
    }
  }

  lemma WithoutOne(y: int, x: int)
    ensures Without([y], x) == if y == x then [] else [y]
  {
    assert [y][1..] == [];
  }

  lemma {:induction false} WithoutAbsent(s: seq<int>, x: int)
    requires x !in s
    ensures Without(s, x) == s
  {
    if s != [] { WithoutAbsent(s[1..], x); }
  }

  /** Replacing a subtree by one whose in-order sequence is the old one without x
      does the same to the whole tree, when x is not on the path. */
  lemma {:induction false} WithoutPlug(ctx: Ctx, t: Tree, t2: Tree, x: int)
    requires x !in CtxIds(ctx) && Without(InOrder(t), x) == InOrder(t2)
    ensures Without(InOrder(Plug(ctx, t)), x) == InOrder(Plug(ctx, t2))
    decreases ctx
  {
    match ctx
    case Top =>
    case InL(up, id, c, r) =>
      WithoutLeft(t, t2, id, c, r, x);
      WithoutPlug(up, Node(t, id, c, r), Node(t2, id, c, r), x);
    case InR(l, id, c, up) =>
      WithoutRight(l, id, c, t, t2, x);
      WithoutPlug(up, Node(l, id, c, t), Node(l, id, c, t2), x);
  }

  lemma WithoutLeft(t: Tree, t2: Tree, id: int, c: int, r: Tree, x: int)
    requires x != id && x !in Ids(r) && Without(InOrder(t), x) == InOrder(t2)
    ensures Without(InOrder(Node(t, id, c, r)), x) == InOrder(Node(t2, id, c, r))
  {
    InOrderIds(r);
    WithoutTail(InOrder(t), [id], InOrder(t2), x);
    WithoutTail(InOrder(t) + [id], InOrder(r), InOrder(t2) + [id], x);
  }

  lemma WithoutRight(l: Tree, id: int, c: int, t: Tree, t2: Tree, x: int)
    requires x != id && x !in Ids(l) && Without(InOrder(t), x) == InOrder(t2)
    ensures Without(InOrder(Node(l, id, c, t)), x) == InOrder(Node(l, id, c, t2))
  {
    InOrderIds(l);
    WithoutHead(InOrder(l), [id], x);
    WithoutHead(InOrder(l) + [id], InOrder(t), x);
  }

  lemma WithoutTail(a: seq<int>, b: seq<int>, c: seq<int>, x: int)
    requires Without(a, x) == c && x !in b
    ensures Without(a + b, x) == c + b
  {
    WithoutConcat(a, b, x);
    WithoutAbsent(b, x);
  }

  lemma WithoutHead(a: seq<int>, b: seq<int>, x: int)
    requires x !in a
    ensures Without(a + b, x) == a + Without(b, x)
  {
    WithoutConcat(a, b, x);
    WithoutAbsent(a, x);
  }

  /** The subtree at x is that of the hole when x lies in the hole. */
  lemma {:induction false} SubAtPlug(ctx: Ctx, t: Tree, x: int)
    requires Wf(Plug(ctx, t)) && x in Ids(t)
    ensures x in Ids(Plug(ctx, t)) && SubAt(Plug(ctx, t), x) == SubAt(t, x)
    decreases ctx
  {
    match ctx
    case Top =>
    case InL(up, id, c, r) =>
      WfPlug(up, Node(t, id, c, r));
      SubAtPlug(up, Node(t, id, c, r), x);
    case InR(l, id, c, up) =>
      WfPlug(up, Node(l, id, c, t));
      SubAtPlug(up, Node(l, id, c, t), x);
  }

  /** Composition of paths is associative. */
  lemma {:induction false} ComposeAssoc(a: Ctx, b: Ctx, c: Ctx)
    ensures Compose(a, Compose(b, c)) == Compose(Compose(a, b), c)
    decreases c
  {
    match c
    case Top =>
    case InL(up, _, _, _) => ComposeAssoc(a, b, up);
    case InR(_, _, _, up) => ComposeAssoc(a, b, up);
  }

  lemma {:induction false} ComposeTop(c: Ctx)
    ensures Compose(Top, c) == c
    decreases c
  {
    match c
    case Top =>
    case InL(up, _, _, _) => ComposeTop(up);
    case InR(_, _, _, up) => ComposeTop(up);
  }

  /** The path to a node inside the hole continues the path to the hole. */
  lemma {:induction false} PathToPlugIn(ctx: Ctx, t: Tree, x: int)
    requires Wf(Plug(ctx, t)) && x in Ids(t)
    ensures x in Ids(Plug(ctx, t)) && PathTo(Plug(ctx, t), x) == Compose(ctx, PathTo(t, x))
    decreases ctx
  {
    IdsPlug(ctx, t);
    match ctx
    case Top =>
      ComposeTop(PathTo(t, x));
    case InL(up, id, c, r) =>
      var u := Node(t, id, c, r);
      PathToPlugIn(up, u, x);
      WfPlug(up, u);
      assert x != id && x in Ids(u.l);
      assert PathTo(u, x) == Compose(InL(Top, id, c, r), PathTo(t, x));
      ComposeAssoc(up, InL(Top, id, c, r), PathTo(t, x));
    case InR(l, id, c, up) =>
      var u := Node(l, id, c, t);
      PathToPlugIn(up, u, x);
      WfPlug(up, u);
      assert x != id && x !in Ids(l);
      assert PathTo(u, x) == Compose(InR(l, id, c, Top), PathTo(t, x));
      ComposeAssoc(up, InR(l, id, c, Top), PathTo(t, x));
  }

  /** Ids being distinct, a node's path and subtree are the only ones that plug
      together to the tree. */
  lemma PathToUnique(ctx: Ctx, t: Tree)
    requires Wf(Plug(ctx, t)) && t.Node?
    ensures t.id in Ids(Plug(ctx, t))
    ensures PathTo(Plug(ctx, t), t.id) == ctx && SubAt(Plug(ctx, t), t.id) == t
  {
    PathToPlugIn(ctx, t, t.id);
    SubAtPlug(ctx, t, t.id);
  }

  /** rb_del's first loop, right child present: node x exchanges places with the
      leftmost node s of its right subtree. Afterwards x sits where s was, with no
      left child and s's colour; with x set aside, the in-order sequence is kept. */
  lemma SwapSuccessor(ctx: Ctx, t: Tree)
    requires Wf(Plug(ctx, t)) && t.Node? && t.r.Node?
    ensures var L := LeftNode(t.r);
      var ctx2 := Compose(InR(t.l, L.id, t.c, ctx), LeftPath(t.r));
      var u := Node(Nil, t.id, L.c, L.r);
      L.id in Ids(t) && L.id != t.id &&
      SwapT(Plug(ctx, t), t.id, L.id) == Plug(ctx2, u) &&
      Size(u) < Size(t) &&
      Without(InOrder(Plug(ctx2, u)), t.id) == Without(InOrder(Plug(ctx, t)), t.id)
  {
    SwapSuccessorShape(ctx, t);
    SwapSuccessorOrder(ctx, t);
  }

  lemma SwapSuccessorShape(ctx: Ctx, t: Tree)
    requires Wf(Plug(ctx, t)) && t.Node? && t.r.Node?
    ensures var L := LeftNode(t.r);
      L.id in Ids(t) && L.id != t.id && Size(Node(Nil, t.id, L.c, L.r)) < Size(t) &&
      SwapT(Plug(ctx, t), t.id, L.id) ==
      Plug(Compose(InR(t.l, L.id, t.c, ctx), LeftPath(t.r)), Node(Nil, t.id, L.c, L.r))
  {
    var x := t.id;
    var L := LeftNode(t.r);
    var s := L.id;
    var lp := LeftPath(t.r);
    var u := Node(Nil, x, L.c, L.r);
    LeftPathPlug(t.r);
    WfPlug(ctx, t);
    IdsPlug(lp, L);
    WfPlug(lp, L);
    IdsPlug(ctx, t);
    SwapPlug(ctx, t, x, s);
    SwapCUnchanged(ctx, x, s);
    SwapTUnchanged(t.l, x, s);
    SwapPlug(lp, L, x, s);
    SwapCUnchanged(lp, x, s);
    SwapTUnchanged(L.r, x, s);
    assert SwapT(t.r, x, s) == Plug(lp, u);
    PlugCompose(InR(t.l, s, t.c, ctx), lp, u);
  }

  lemma SwapSuccessorOrder(ctx: Ctx, t: Tree)
    requires t.Node? && t.r.Node? && LeftNode(t.r).id != t.id
    ensures var L := LeftNode(t.r);
      var ctx2 := Compose(InR(t.l, L.id, t.c, ctx), LeftPath(t.r));
      Without(InOrder(Plug(ctx2, Node(Nil, t.id, L.c, L.r))), t.id) == Without(InOrder(Plug(ctx, t)), t.id)
  {
    var x := t.id;
    var L := LeftNode(t.r);
    var s := L.id;
    var lp := LeftPath(t.r);
    var ctx2 := Compose(InR(t.l, s, t.c, ctx), lp);
    var u := Node(Nil, x, L.c, L.r);
    var P, Q, R, Z, W := Before(ctx), InOrder(t.l), InOrder(L.r), After(lp), After(ctx);
    LeftPathPlug(t.r);
    assert Before(ctx2) == P + Q + [s] && After(ctx2) == Z + W by {
      ComposeOrder(InR(t.l, s, t.c, ctx), lp);
    }
    assert InOrder(t.r) == [s] + R + Z by {
      InOrderPlug(lp, L);
      assert InOrder(L) == [] + [s] + R;
    }
    assert InOrder(u) == [x] + R by { assert InOrder(u) == [] + [x] + R; }
    assert InOrder(t) == Q + [x] + ([s] + R + Z);
    calc {
      Without(InOrder(Plug(ctx2, u)), x);
    == { InOrderPlug(ctx2, u); }
      Without((P + Q + [s]) + ([x] + R) + (Z + W), x);
    == { SuccessorSeqs(P, Q, x, s, R, Z, W); }
      Without(P + (Q + [x] + ([s] + R + Z)) + W, x);
    == { InOrderPlug(ctx, t); }
      Without(InOrder(Plug(ctx, t)), x);
    }
  }

  lemma SuccessorSeqs(P: seq<int>, Q: seq<int>, x: int, s: int, R: seq<int>, Z: seq<int>, W: seq<int>)
    requires s != x
    ensures Without((P + Q + [s]) + ([x] + R) + (Z + W), x) == Without(P + (Q + [x] + ([s] + R + Z)) + W, x)
  {
    assert P + (Q + [x] + ([s] + R + Z)) + W == (P + Q) + [x] + ([s] + (R + Z + W));
    assert (P + Q + [s]) + ([x] + R) + (Z + W) == ((P + Q) + [s]) + [x] + (R + Z + W);
    WithoutSwapped(P + Q, x, s, R + Z + W);
  }

  lemma PredecessorSeqs(P: seq<int>, Q: seq<int>, R: seq<int>, s: int, x: int, Z: seq<int>, W: seq<int>)
    requires s != x
    ensures Without((P + Q) + (R + [x]) + ([s] + Z + W), x) == Without(P + (Q + (R + [s]) + [x] + Z) + W, x)
  {
    assert P + (Q + (R + [s]) + [x] + Z) + W == ((P + Q + R) + [s]) + [x] + (Z + W);
    assert (P + Q) + (R + [x]) + ([s] + Z + W) == (P + Q + R) + [x] + ([s] + (Z + W));
    WithoutSwapped(P + Q + R, x, s, Z + W);
  }

  /** Exchanging x with a neighbour keeps the sequence with x removed. */
  lemma WithoutSwapped(X: seq<int>, x: int, s: int, Y: seq<int>)
    requires s != x
    ensures Without(X + [x] + ([s] + Y), x) == Without((X + [s]) + [x] + Y, x)
  {
    var wx, wy := Without(X, x), Without(Y, x);
    calc {
      Without(X + [x] + ([s] + Y), x);
    == { WithoutSkip(X, x, [s] + Y); }
      wx + Without([s] + Y, x);
    == { WithoutHead([s], Y, x); }
      wx + ([s] + wy);
    == { WithoutTail(X, [s], wx, x); }
      Without(X + [s], x) + wy;
    == { WithoutSkip(X + [s], x, Y); }
      Without((X + [s]) + [x] + Y, x);
    }
  }

  lemma WithoutSkip(a: seq<int>, x: int, b: seq<int>)
    ensures Without(a + [x] + b, x) == Without(a, x) + Without(b, x)
  {
    WithoutOne(x, x);
    WithoutConcat(a, [x], x);
    WithoutConcat(a + [x], b, x);
  }


  /** The same with no right child: x exchanges places with the rightmost node of
      its left subtree. */
  lemma SwapPredecessor(ctx: Ctx, t: Tree)
    requires Wf(Plug(ctx, t)) && t.Node? && t.l.Node?
    ensures var R := RightNode(t.l);
      var ctx2 := Compose(InL(ctx, R.id, t.c, t.r), RightPath(t.l));
      var u := Node(R.l, t.id, R.c, Nil);
      R.id in Ids(t) && R.id != t.id &&
      SwapT(Plug(ctx, t), t.id, R.id) == Plug(ctx2, u) &&
      Size(u) < Size(t) &&
      Without(InOrder(Plug(ctx2, u)), t.id) == Without(InOrder(Plug(ctx, t)), t.id)
  {
    SwapPredecessorShape(ctx, t);
    SwapPredecessorOrder(ctx, t);
  }

  lemma SwapPredecessorShape(ctx: Ctx, t: Tree)
    requires Wf(Plug(ctx, t)) && t.Node? && t.l.Node?
    ensures var R := RightNode(t.l);
      R.id in Ids(t) && R.id != t.id && Size(Node(R.l, t.id, R.c, Nil)) < Size(t) &&
      SwapT(Plug(ctx, t), t.id, R.id) ==
      Plug(Compose(InL(ctx, R.id, t.c, t.r), RightPath(t.l)), Node(R.l, t.id, R.c, Nil))
  {
    var x := t.id;
    var R := RightNode(t.l);
    var s := R.id;
    var rp := RightPath(t.l);
    var u := Node(R.l, x, R.c, Nil);
    RightPathPlug(t.l);
    WfPlug(ctx, t);
    IdsPlug(rp, R);
    WfPlug(rp, R);
    IdsPlug(ctx, t);
    SwapPlug(ctx, t, x, s);
    SwapCUnchanged(ctx, x, s);
    SwapTUnchanged(t.r, x, s);
    SwapPlug(rp, R, x, s);
    SwapCUnchanged(rp, x, s);
    SwapTUnchanged(R.l, x, s);
    assert SwapT(t.l, x, s) == Plug(rp, u);
    PlugCompose(InL(ctx, s, t.c, t.r), rp, u);
  }

  lemma SwapPredecessorOrder(ctx: Ctx, t: Tree)
    requires t.Node? && t.l.Node? && RightNode(t.l).id != t.id
    ensures var R := RightNode(t.l);
      var ctx2 := Compose(InL(ctx, R.id, t.c, t.r), RightPath(t.l));
      Without(InOrder(Plug(ctx2, Node(R.l, t.id, R.c, Nil))), t.id) == Without(InOrder(Plug(ctx, t)), t.id)
  {
    var x := t.id;
    var R := RightNode(t.l);
    var s := R.id;
    var rp := RightPath(t.l);
    var ctx2 := Compose(InL(ctx, s, t.c, t.r), rp);
    var u := Node(R.l, x, R.c, Nil);
    var P, Q, L, Z, W := Before(ctx), Before(rp), InOrder(R.l), InOrder(t.r), After(ctx);
    RightPathPlug(t.l);
    assert Before(ctx2) == P + Q && After(ctx2) == [s] + Z + W by {
      ComposeOrder(InL(ctx, s, t.c, t.r), rp);
    }
    assert InOrder(t.l) == Q + (L + [s]) by {
      InOrderPlug(rp, R);
      assert InOrder(R) == L + [s] + [];
    }
    assert InOrder(u) == L + [x] by { assert InOrder(u) == L + [x] + []; }
    assert InOrder(t) == Q + (L + [s]) + [x] + Z;
    calc {
      Without(InOrder(Plug(ctx2, u)), x);
    == { InOrderPlug(ctx2, u); }
      Without((P + Q) + (L + [x]) + ([s] + Z + W), x);
    == { PredecessorSeqs(P, Q, L, s, x, Z, W); }
      Without(P + (Q + (L + [s]) + [x] + Z) + W, x);
    == { InOrderPlug(ctx, t); }
      Without(InOrder(Plug(ctx, t)), x);
    }
  }
}
