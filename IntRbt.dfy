/** The int_rb_* functions of rbt.c: every tree node is the `node` member of a
    `struct int_rb_node`, whose `value` orders the tree as a binary search tree.
    The value of the record with id i is `value[i]` (container_of). */
module IntRbt {
  import opened RbModel
  import opened RbLemmas
  import opened RbLinks
  import opened Rbt

  /** The value of the int_rb_node that contains record i. */
  function Key(i: int, value: seq<int>): int {
    if 0 <= i < |value| then value[i] else 0
  }

  /** The values of a sequence of records. */
  function Keys(ids: seq<int>, value: seq<int>): seq<int> {
    seq(|ids|, k requires 0 <= k < |ids| => Key(ids[k], value))
  }

  /** Strictly increasing: what a binary search tree without duplicates shows in order. */
  predicate Increasing(s: seq<int>) {
    forall i, j :: 0 <= i < j < |s| ==> s[i] < s[j]
  }

  /** The values of the stored tree, in order. */
  ghost function Vals(tree: RbTree): seq<int>
    reads tree
  {
    Keys(InOrder(tree.shape), tree.value)
  }

  /** v lies above every value before the hole of `ctx` and below every value after it. */
  predicate Between(ctx: Ctx, value: seq<int>, v: int) {
    (forall k :: k in Keys(Before(ctx), value) ==> k < v) &&
    (forall k :: k in Keys(After(ctx), value) ==> v < k)
  }

  // ----- sequences of values -----

  lemma KeysConcat(a: seq<int>, b: seq<int>, value: seq<int>)
    ensures Keys(a + b, value) == Keys(a, value) + Keys(b, value)
  {
    var l, r := Keys(a + b, value), Keys(a, value) + Keys(b, value);
    assert |l| == |r|;
    forall k | 0 <= k < |l|
      ensures l[k] == r[k]
    {
      if k < |a| { assert (a + b)[k] == a[k]; } else { assert (a + b)[k] == b[k - |a|]; }
    }
  }

  lemma KeysIn(ids: seq<int>, value: seq<int>, i: int)
    requires i in ids
    ensures Key(i, value) in Keys(ids, value)
  {
    var k :| 0 <= k < |ids| && ids[k] == i;
    assert Keys(ids, value)[k] == Key(i, value);
  }

  /** Appending a record to the arena leaves the values of the older records. */
  lemma KeysGrow(ids: seq<int>, value: seq<int>, w: int)
    requires forall i :: i in ids ==> 0 <= i < |value|
    ensures Keys(ids, value + [w]) == Keys(ids, value)
  {
    var l, r := Keys(ids, value + [w]), Keys(ids, value);
    forall k | 0 <= k < |ids|
      ensures l[k] == r[k]
    {
      assert ids[k] in ids;
    }
  }

  lemma IncreasingParts(a: seq<int>, b: seq<int>)
    requires Increasing(a + b)
    ensures Increasing(a) && Increasing(b)
  {
    forall i, j | 0 <= i < j < |b|
      ensures b[i] < b[j]
    {
      assert (a + b)[|a| + i] == b[i] && (a + b)[|a| + j] == b[j];
    }
    forall i, j | 0 <= i < j < |a|
      ensures a[i] < a[j]
    {
      assert (a + b)[i] == a[i] && (a + b)[j] == a[j];
    }
  }

  /** In an increasing sequence, everything before m is below it and everything after above. */
  lemma IncreasingSplit(a: seq<int>, m: int, b: seq<int>)
    requires Increasing(a + [m] + b)
    ensures Increasing(a) && Increasing(b)
    ensures forall k :: k in a ==> k < m
    ensures forall k :: k in b ==> m < k
  {
    var s := a + [m] + b;
    assert s == (a + [m]) + b;
    IncreasingParts(a + [m], b);
    IncreasingParts(a, [m]);
    assert s[|a|] == m;
    forall k | k in a
      ensures k < m
    {
      var i :| 0 <= i < |a| && a[i] == k;
      assert s[i] == k;
    }
    forall k | k in b
      ensures m < k
    {
      var i :| 0 <= i < |b| && b[i] == k;
      assert s[|a| + 1 + i] == k;
    }
  }

  lemma IncreasingJoin(a: seq<int>, m: int, b: seq<int>)
    requires Increasing(a) && Increasing(b)
    requires forall k :: k in a ==> k < m
    requires forall k :: k in b ==> m < k
    ensures Increasing(a + [m] + b)
  {
    var s := a + [m] + b;
    forall i, j | 0 <= i < j < |s|
      ensures s[i] < s[j]
    {
      if i < |a| {
        assert s[i] == a[i] && a[i] in a;
        if j < |a| { assert s[j] == a[j]; }
        else if j > |a| { assert s[j] == b[j - |a| - 1] && s[j] in b; }
      } else if i == |a| {
        assert s[j] == b[j - |a| - 1] && s[j] in b;
      } else {
        assert s[i] == b[i - |a| - 1] && s[j] == b[j - |a| - 1];
      }
    }
  }

  // ----- the search tree -----

  /** The values of a node's left subtree lie below its own, those on its right above. */
  lemma SearchStep(u: Tree, value: seq<int>, v: int)
    requires u.Node? && Increasing(Keys(InOrder(u), value))
    ensures Increasing(Keys(InOrder(u.l), value)) && Increasing(Keys(InOrder(u.r), value))
    ensures Key(u.id, value) in Keys(InOrder(u), value)
    ensures v < Key(u.id, value) ==> (v in Keys(InOrder(u), value) <==> v in Keys(InOrder(u.l), value))
    ensures v > Key(u.id, value) ==> (v in Keys(InOrder(u), value) <==> v in Keys(InOrder(u.r), value))
    ensures forall k :: k in Keys(InOrder(u.r), value) ==> Key(u.id, value) < k
    ensures forall k :: k in Keys(InOrder(u.l), value) ==> k < Key(u.id, value)
  {
    KeysConcat(InOrder(u.l) + [u.id], InOrder(u.r), value);
    KeysConcat(InOrder(u.l), [u.id], value);
    assert Keys([u.id], value) == [Key(u.id, value)];
    IncreasingSplit(Keys(InOrder(u.l), value), Key(u.id, value), Keys(InOrder(u.r), value));
  }

  /** A step of int_rb_add's walk to the left keeps v between the values on either side of the slot. */
  lemma AddStepLeft(ctx: Ctx, u: Tree, value: seq<int>, v: int)
    requires u.Node? && Increasing(Keys(InOrder(u), value)) && Between(ctx, value, v) && v < Key(u.id, value)
    ensures Between(InL(ctx, u.id, u.c, u.r), value, v)
  {
    SearchStep(u, value, v);
    KeysConcat([u.id] + InOrder(u.r), After(ctx), value);
    KeysConcat([u.id], InOrder(u.r), value);
    assert Keys([u.id], value) == [Key(u.id, value)];
  }

  /** The same for a step to the right. */
  lemma AddStepRight(ctx: Ctx, u: Tree, value: seq<int>, v: int)
    requires u.Node? && Increasing(Keys(InOrder(u), value)) && Between(ctx, value, v) && v > Key(u.id, value)
    ensures Between(InR(u.l, u.id, u.c, ctx), value, v)
  {
    SearchStep(u, value, v);
    KeysConcat(Before(ctx) + InOrder(u.l), [u.id], value);
    KeysConcat(Before(ctx), InOrder(u.l), value);
    assert Keys([u.id], value) == [Key(u.id, value)];
  }

  /** Where int_rb_add's walk ends, at an empty slot with v between its neighbours:
      v is not in the tree, and hanging a node with value v there keeps the values
      increasing and adds exactly v. */
  lemma AddLeaf(ctx: Ctx, n: int, c: int, value: seq<int>, v: int)
    requires Increasing(Keys(InOrder(Plug(ctx, Nil)), value)) && Between(ctx, value, v)
    requires Key(n, value) == v
    ensures v !in Keys(InOrder(Plug(ctx, Nil)), value)
    ensures var s := Keys(InOrder(Plug(ctx, Node(Nil, n, c, Nil))), value);
      Increasing(s) &&
      forall k :: k in s <==> k in Keys(InOrder(Plug(ctx, Nil)), value) || k == v
  {
    var B, A := Before(ctx), After(ctx);
    InOrderPlug(ctx, Nil);
    InOrderPlug(ctx, Node(Nil, n, c, Nil));
    assert B + InOrder(Nil) + A == B + A;
    assert B + InOrder(Node(Nil, n, c, Nil)) + A == B + [n] + A;
    KeysConcat(B, A, value);
    KeysConcat(B + [n], A, value);
    KeysConcat(B, [n], value);
    assert Keys([n], value) == [v];
    IncreasingParts(Keys(B, value), Keys(A, value));
    IncreasingJoin(Keys(B, value), v, Keys(A, value));
  }

  /** Removing record n from an increasing sequence keeps it increasing and removes
      exactly n's value. */
  lemma {:induction false} KeysWithout(s: seq<int>, value: seq<int>, n: int)
    requires Increasing(Keys(s, value)) && n in s
    ensures Increasing(Keys(Without(s, n), value))
    ensures forall k :: k in Keys(Without(s, n), value) <==> k in Keys(s, value) && k != Key(n, value)
  {
    var h, t := s[0], s[1..];
    assert s == [h] + t;
    KeysConcat([h], t, value);
    assert Keys([h], value) == [Key(h, value)];
    assert Keys(s, value) == [] + [Key(h, value)] + Keys(t, value);
    IncreasingSplit([], Key(h, value), Keys(t, value));
    if h == n {
      if n in t {
        KeysIn(t, value, n);
      }
      WithoutAbsent(t, n);
      assert Without(s, n) == t;
    } else {
      KeysWithout(t, value, n);
      KeysIn(t, value, n);
      var w := Without(t, n);
      assert Without(s, n) == [h] + w;
      KeysConcat([h], w, value);
      assert Keys(Without(s, n), value) == [] + [Key(h, value)] + Keys(w, value);
      IncreasingJoin([], Key(h, value), Keys(w, value));
    }
  }

  // ----- the wrapper functions -----

  /** int_rb_search: walks down from the root, to the left while v is below the
      node's value and to the right while above; returns the node holding v, or NIL.
      In a search tree, NIL means v is absent. */
  method Search(tree: RbTree, v: int) returns (n: int)
    requires tree.Shaped()
    ensures n != NIL ==> n in Ids(tree.shape) && 0 <= n < |tree.value| && tree.value[n] == v
    ensures Increasing(Vals(tree)) ==> (n == NIL <==> v !in Vals(tree))
  {
    ghost var u, pu := tree.shape, NIL;
    ghost var sorted := Increasing(Vals(tree));
    var current := tree.root;
    while current != NIL
      invariant Linked(u, pu, tree.nodes) && current == RootId(u) && Ids(u) <= Ids(tree.shape)
      invariant sorted ==> Increasing(Keys(InOrder(u), tree.value))
      invariant sorted ==> (v in Vals(tree) <==> v in Keys(InOrder(u), tree.value))
      decreases Size(u)
    {
      if v < tree.value[current] {
        if sorted { SearchStep(u, tree.value, v); }
        pu, u := current, u.l;
        current := tree.nodes[current].left;
      } else if v > tree.value[current] {
        if sorted { SearchStep(u, tree.value, v); }
        pu, u := current, u.r;
        current := tree.nodes[current].right;
      } else {
        if sorted { SearchStep(u, tree.value, v); }
        return current;
      }
    }
    return NIL;
  }

  /** int_rb_del: finds the node holding v and, if there is one, unlinks it with
      rb_del and frees it; returns 1 when a node was removed, 0 otherwise. */
  method Del(tree: RbTree, v: int) returns (r: int)
    requires tree.Valid()
    modifies tree
    ensures tree.Valid() && (r == 0 || r == 1)
    ensures |tree.nodes| == old(|tree.nodes|) && tree.value == old(tree.value)
    ensures r == 0 ==> tree.shape == old(tree.shape) && tree.nodes == old(tree.nodes) && tree.root == old(tree.root)
    ensures r == 1 ==> exists n :: (n in old(Ids(tree.shape)) && 0 <= n < |tree.value| && tree.value[n] == v &&
                                 Ids(tree.shape) == old(Ids(tree.shape)) - {n} &&
                                 InOrder(tree.shape) == Without(old(InOrder(tree.shape)), n))
    ensures old(Increasing(Vals(tree))) ==>
      (r == 1 <==> v in old(Vals(tree))) && Increasing(Vals(tree)) &&
      forall k :: k in Vals(tree) <==> k in old(Vals(tree)) && k != v
  {
    var n := Search(tree, v);
    if n != NIL {
      ghost var order := InOrder(tree.shape);
      InOrderIds(tree.shape);
      if Increasing(Vals(tree)) {
        KeysWithout(order, tree.value, n);
      }
      tree.RbDel(n);
      r := 1;
    } else {
      r := 0;
    }
  }

  /** The walk of int_rb_add: down from the root as the search goes, remembering
      the slot it leaves and the node that slot belongs to. It stops at a node
      holding v (`dup`) or at an empty slot, between the values on either side
      when the tree is a search tree. */
  method AddWalk(tree: RbTree, v: int) returns (dup: bool, parent: int, current: Slot, ghost cx: Ctx)
    requires tree.Shaped()
    ensures SlotIn(current, tree.nodes)
    ensures dup ==> parent == tree.Load(current) && parent in Ids(tree.shape) && 0 <= parent < |tree.value| && tree.value[parent] == v
    ensures !dup ==> tree.shape == Plug(cx, Nil) && current == SlotOf(cx) && parent == CtxId(cx)
    ensures !dup && Increasing(Vals(tree)) ==> Between(cx, tree.value, v)
  {
    ghost var sorted := Increasing(Vals(tree));
    ghost var u := tree.shape;
    cx := Top;
    current, parent := RootSlot, NIL;
    while tree.Load(current) != NIL
      invariant tree.shape == Plug(cx, u) && current == SlotOf(cx) && parent == CtxId(cx)
      invariant SlotIn(current, tree.nodes) && tree.Load(current) == RootId(u)
      invariant sorted ==> Increasing(Keys(InOrder(u), tree.value)) && Between(cx, tree.value, v)
      decreases Size(u)
    {
      HoleFacts(cx, u, tree.nodes, tree.root);
      parent := tree.Load(current);
      if v < tree.value[parent] {
        if sorted { AddStepLeft(cx, u, tree.value, v); SearchStep(u, tree.value, v); }
        current := LeftOf(parent);
        cx, u := InL(cx, u.id, u.c, u.r), u.l;
      } else if v > tree.value[parent] {
        if sorted { AddStepRight(cx, u, tree.value, v); SearchStep(u, tree.value, v); }
        current := RightOf(parent);
        cx, u := InR(u.l, u.id, u.c, cx), u.r;
      } else {
        IdsPlug(cx, u);
        return true, parent, current, cx;
      }
    }
    if u.Node? { HoleFacts(cx, u, tree.nodes, tree.root); }
    dup := false;
  }

  /** int_rb_add: allocates a node holding v, then walks down as AddWalk does;
      meeting v returns 0 (the new node is left allocated, outside the tree), an
      empty slot receives the node, which rb_insert_color then balances in;
      returns 1. */
  method Add(tree: RbTree, v: int) returns (r: int)
    requires tree.Valid()
    modifies tree
    ensures tree.Valid() && (r == 0 || r == 1)
    ensures |tree.nodes| == old(|tree.nodes|) + 1 && tree.value == old(tree.value) + [v]
    ensures r == 0 ==> tree.shape == old(tree.shape) && v in old(Vals(tree))
    ensures r == 1 ==> Ids(tree.shape) == old(Ids(tree.shape)) + {old(|tree.nodes|)}
    ensures old(Increasing(Vals(tree))) ==>
      (r == 1 <==> v !in old(Vals(tree))) && Increasing(Vals(tree)) &&
      forall k :: k in Vals(tree) <==> k in old(Vals(tree)) || k == v
  {
    ghost var sorted := Increasing(Vals(tree));
    ghost var vals := Vals(tree);
    LinkedIds(tree.shape, NIL, tree.nodes);
    InOrderIds(tree.shape);
    KeysGrow(InOrder(tree.shape), tree.value, v);
    var node := tree.NewNode(v);
    assert Vals(tree) == vals;
    var dup, parent, current, cx := AddWalk(tree, v);
    if dup {
      InOrderIds(tree.shape);
      KeysIn(InOrder(tree.shape), tree.value, parent);
      return 0;
    }
    if sorted { AddLeaf(cx, node, RED, tree.value, v); }
    tree.LinkNode(node, parent, current, cx);
    IdsPlug(cx, Nil);
    IdsPlug(cx, Node(Nil, node, RED, Nil));
    tree.InsertColor(node, cx, RED);
    return 1;
  }
}
