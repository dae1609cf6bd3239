/** Abstract red-black trees over node ids, and zippers (paths to a hole) into them.

    A node of the arena is named by an int id (>= 0); NIL (-1) is the null pointer.
    Colours are the values of rbt.c's `blackness` field, and they double as the
    black weight a node contributes to a path: RED 0, BLACK 1, DOUBLE_BLACK 2. */
module RbModel {

  const NIL: int := -1
  const RED: int := 0
  const BLACK: int := 1
  const DOUBLE_BLACK: int := 2

  /** The shape of the tree: every node carries its id and its colour. */
  datatype Tree = Nil | Node(l: Tree, id: int, c: int, r: Tree)

  /** A path from a hole up to the root. InL(up, id, c, r): the hole is the left
      child of node `id`, whose right subtree is `r` and whose own position is `up`. */
  datatype Ctx =
    | Top
    | InL(up: Ctx, id: int, c: int, r: Tree)
    | InR(l: Tree, id: int, c: int, up: Ctx)

  function RootId(t: Tree): int {
    if t.Nil? then NIL else t.id
  }

  /** The id of the node whose child slot is the hole (NIL when the hole is the root slot). */
  function CtxId(ctx: Ctx): int {
    if ctx.Top? then NIL else ctx.id
  }

  function Plug(ctx: Ctx, t: Tree): Tree
    decreases ctx
  {
    match ctx
    case Top => t
    case InL(up, id, c, r) => Plug(up, Node(t, id, c, r))
    case InR(l, id, c, up) => Plug(up, Node(l, id, c, t))
  }

  /** The path `inner` continued by `outer` above it. */
  function Compose(outer: Ctx, inner: Ctx): Ctx
    decreases inner
  {
    match inner
    case Top => outer
    case InL(up, id, c, r) => InL(Compose(outer, up), id, c, r)
    case InR(l, id, c, up) => InR(l, id, c, Compose(outer, up))
  }

  function Depth(ctx: Ctx): nat {
    match ctx
    case Top => 0
    case InL(up, _, _, _) => 1 + Depth(up)
    case InR(_, _, _, up) => 1 + Depth(up)
  }

  function Size(t: Tree): nat {
    if t.Nil? then 0 else Size(t.l) + 1 + Size(t.r)
  }

  function Ids(t: Tree): set<int> {
    if t.Nil? then {} else Ids(t.l) + {t.id} + Ids(t.r)
  }

  function CtxIds(ctx: Ctx): set<int> {
    match ctx
    case Top => {}
    case InL(up, id, _, r) => CtxIds(up) + {id} + Ids(r)
    case InR(l, id, _, up) => CtxIds(up) + {id} + Ids(l)
  }

  /** The in-order sequence of node ids (what rbt.c's in_order_traversal visits). */
  function InOrder(t: Tree): seq<int> {
    if t.Nil? then [] else InOrder(t.l) + [t.id] + InOrder(t.r)
  }

  /** The in-order ids that come before, resp. after, the hole of a path. */
  function Before(ctx: Ctx): seq<int> {
    match ctx
    case Top => []
    case InL(up, _, _, _) => Before(up)
    case InR(l, id, _, up) => Before(up) + InOrder(l) + [id]
  }

  function After(ctx: Ctx): seq<int> {
    match ctx
    case Top => []
    case InL(up, id, _, r) => [id] + InOrder(r) + After(up)
    case InR(_, _, _, up) => After(up)
  }

  /** Ids are non-negative and pairwise distinct. */
  predicate Wf(t: Tree) {
    t.Node? ==>
      t.id >= 0 && Wf(t.l) && Wf(t.r) &&
      t.id !in Ids(t.l) && t.id !in Ids(t.r) && Ids(t.l) !! Ids(t.r)
  }

  predicate CtxWf(ctx: Ctx) {
    match ctx
    case Top => true
    case InL(up, id, _, r) =>
      id >= 0 && Wf(r) && CtxWf(up) && id !in Ids(r) && id !in CtxIds(up) && Ids(r) !! CtxIds(up)
    case InR(l, id, _, up) =>
      id >= 0 && Wf(l) && CtxWf(up) && id !in Ids(l) && id !in CtxIds(up) && Ids(l) !! CtxIds(up)
  }

  // ----- colours -----

  predicate Red(t: Tree) {
    t.Node? && t.c == RED
  }

  /** No RED node has a RED child. */
  predicate NoRedRed(t: Tree) {
    t.Node? ==>
      NoRedRed(t.l) && NoRedRed(t.r) && (t.c == RED ==> !Red(t.l) && !Red(t.r))
  }

  /** The same rule for the nodes of a path; `holeRed` tells whether the tree in
      the hole has a RED root. */
  predicate CtxNoRedRed(ctx: Ctx, holeRed: bool) {
    match ctx
    case Top => true
    case InL(up, _, c, r) => NoRedRed(r) && (c == RED ==> !holeRed && !Red(r)) && CtxNoRedRed(up, c == RED)
    case InR(l, _, c, up) => NoRedRed(l) && (c == RED ==> !holeRed && !Red(l)) && CtxNoRedRed(up, c == RED)
  }

  /** Every colour is RED or BLACK, except that node `d` may be DOUBLE_BLACK. */
  predicate ColorsOk(t: Tree, d: int) {
    t.Node? ==>
      (t.c == RED || t.c == BLACK || (d != NIL && t.id == d && t.c == DOUBLE_BLACK)) &&
      ColorsOk(t.l, d) && ColorsOk(t.r, d)
  }

  predicate CtxColorsOk(ctx: Ctx, d: int) {
    match ctx
    case Top => true
    case InL(up, id, c, r) =>
      (c == RED || c == BLACK || (d != NIL && id == d && c == DOUBLE_BLACK)) && ColorsOk(r, d) && CtxColorsOk(up, d)
    case InR(l, id, c, up) =>
      (c == RED || c == BLACK || (d != NIL && id == d && c == DOUBLE_BLACK)) && ColorsOk(l, d) && CtxColorsOk(up, d)
  }

  /** The colour of the root of the tree a path leads up to. */
  function TopColor(ctx: Ctx): int
    requires !ctx.Top?
  {
    if ctx.up.Top? then ctx.c else TopColor(ctx.up)
  }

  /** Black weight of a node. Node `x` (the node that a deletion is about to
      unlink) weighs one less than its colour says: once it is gone, the paths
      through it lose its colour, so during the fixup it is accounted as removed.
      With x == NIL no node is exempt. */
  function Weight(id: int, c: int, x: int): int {
    if x != NIL && id == x && c > 0 then c - 1 else c
  }

  /** Black height: the weight of the left spine (every path weighs the same in a balanced tree). */
  function BH(t: Tree, x: int): int {
    if t.Nil? then 0 else BH(t.l, x) + Weight(t.id, t.c, x)
  }

  /** Every path from a node down to a null child crosses the same black weight. */
  predicate Bal(t: Tree, x: int) {
    t.Node? ==> Bal(t.l, x) && Bal(t.r, x) && BH(t.l, x) == BH(t.r, x)
  }

  /** The same rule along a path, given the black height `h` of the tree in the hole. */
  predicate CtxBal(ctx: Ctx, h: int, x: int) {
    match ctx
    case Top => true
    case InL(up, id, c, r) => Bal(r, x) && BH(r, x) == h && CtxBal(up, h + Weight(id, c, x), x)
    case InR(l, id, c, up) => Bal(l, x) && BH(l, x) == h && CtxBal(up, h + Weight(id, c, x), x)
  }

  /** The red-black rules of a tree between public operations. */
  predicate RedBlack(t: Tree) {
    ColorsOk(t, NIL) && NoRedRed(t) && Bal(t, NIL) && !Red(t)
  }

  // ----- structural primitives -----

  /** rotate_right on the subtree rooted at the grandparent: the left child p moves up. */
  function RotR(t: Tree): (u: Tree)
    requires t.Node? && t.l.Node?
    ensures InOrder(u) == InOrder(t) && Ids(u) == Ids(t)
  {
    Node(t.l.l, t.l.id, t.l.c, Node(t.l.r, t.id, t.c, t.r))
  }

  /** rotate_left on the subtree rooted at the grandparent: the right child p moves up. */
  function RotL(t: Tree): (u: Tree)
    requires t.Node? && t.r.Node?
    ensures InOrder(u) == InOrder(t) && Ids(u) == Ids(t)
  {
    Node(Node(t.l, t.id, t.c, t.r.l), t.r.id, t.r.c, t.r.r)
  }

  /** The other child of the node whose child slot is the hole. */
  function Sibling(ctx: Ctx): Tree
    requires !ctx.Top?
  {
    if ctx.InL? then ctx.r else ctx.l
  }

  /** The same tree with its root recoloured. */
  function Paint(t: Tree, c: int): Tree
    requires t.Node?
  {
    Node(t.l, t.id, c, t.r)
  }

  /** Exchange of two ids, the renaming that swap_nodes performs on positions. */
  function Sw(i: int, a: int, b: int): int {
    if i == a then b else if i == b then a else i
  }

  function SwapT(t: Tree, a: int, b: int): Tree {
    if t.Nil? then Nil else Node(SwapT(t.l, a, b), Sw(t.id, a, b), t.c, SwapT(t.r, a, b))
  }

  function SwapC(ctx: Ctx, a: int, b: int): Ctx {
    match ctx
    case Top => Top
    case InL(up, id, c, r) => InL(SwapC(up, a, b), Sw(id, a, b), c, SwapT(r, a, b))
    case InR(l, id, c, up) => InR(SwapT(l, a, b), Sw(id, a, b), c, SwapC(up, a, b))
  }

  /** The path from the root of `t` down to node `x`, and the subtree rooted at `x`. */
  function PathTo(t: Tree, x: int): Ctx
    requires x in Ids(t)
  {
    if t.id == x then Top
    else if x in Ids(t.l) then Compose(InL(Top, t.id, t.c, t.r), PathTo(t.l, x))
    else Compose(InR(t.l, t.id, t.c, Top), PathTo(t.r, x))
  }

  function SubAt(t: Tree, x: int): Tree
    requires x in Ids(t)
  {
    if t.id == x then t
    else if x in Ids(t.l) then SubAt(t.l, x)
    else SubAt(t.r, x)
  }

  /** The path down the left spine of a non-empty tree, and the leftmost node. */
  function LeftPath(t: Tree): Ctx
    requires t.Node?
  {
    if t.l.Nil? then Top else Compose(InL(Top, t.id, t.c, t.r), LeftPath(t.l))
  }

  function LeftNode(t: Tree): (u: Tree)
    requires t.Node?
    ensures u.Node? && u.l.Nil? && u.id in Ids(t)
  {
    if t.l.Nil? then t else LeftNode(t.l)
  }

  function RightPath(t: Tree): Ctx
    requires t.Node?
  {
    if t.r.Nil? then Top else Compose(InR(t.l, t.id, t.c, Top), RightPath(t.r))
  }

  function RightNode(t: Tree): (u: Tree)
    requires t.Node?
    ensures u.Node? && u.r.Nil? && u.id in Ids(t)
  {
    if t.r.Nil? then t else RightNode(t.r)
  }

  /** The sequence with every occurrence of x removed. */
  function Without(s: seq<int>, x: int): seq<int> {
    if s == [] then [] else (if s[0] == x then [] else [s[0]]) + Without(s[1..], x)
  }
}
