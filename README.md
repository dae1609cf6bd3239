# An intrusive red-black tree (rbt.c), modelled and proved in Dafny

rbt.c implements an intrusive red-black tree. Each tree node is a
`struct rb_node` holding `parent`, `left` and `right` pointers and a
`blackness` field: RB_RED 0, RB_BLACK 1 or RB_DOUBLE_BLACK 2. The node is
embedded in a caller's record. The caller owns the root pointer.

- The generic layer offers:
  - `rb_link_node`, which hangs a node in an empty slot;
  - `rb_insert_color`, which rebalances after an insertion;
  - `rb_del`, which removes a node;
  - the helpers beneath them (rotations, in-order neighbours, `swap_nodes`).
- The `int_rb_*` functions use the layer with `struct int_rb_node`, whose
  `value` orders the tree as a binary search tree.

The model has these parts:

- **Heap.** The memory is an arena, modelled by the `Rbt.RbTree` class:
  - `nodes: seq<RbNode>` holds one record per allocated node; a record's index is its address;
  - `value: seq<int>` holds the `value` of the enclosing `int_rb_node` (what container_of reads);
  - `root` is the caller's root pointer;
  - `NIL` (-1) is NULL.
- **Pointer slots.** A `struct rb_node **` is a `Slot`: the root pointer, or the left or right link of a record.
- **Ghost shape.** Every method keeps a ghost `shape: Tree` that the arena represents. The shape records each node's id and colour. `Rep` and `Linked` require that:
  - every parent link is the inverse of a child link;
  - the root's parent is NIL.
- **Positions.** A position in the tree is a zipper (`Ctx`), a path from a hole up to the root.
- **Per-method contracts.**
  - Each method of `RbTree` follows the C code statement by statement.
  - It states its new shape in terms of the old one.
  - Where the source promises more, it also states the in-order sequence, the node set and the red-black rules.
- **Deletion balance.** During deletion the node about to be unlinked counts one colour lighter. This is the "double black" bookkeeping of the fixup. `RbCases` holds one lemma per case of each loop.
- **Modules.**
  - `RbModel` holds the pure trees and paths.
  - `RbLemmas` holds the facts about them.
  - `RbLinks` ties the arena to the shape.
  - `RbCases` holds the colour cases.
  - `Rbt` holds the tree operations.
  - `IntRbt` holds the integer wrapper.

## Model

| member | source | states |
|---|---|---|
| Rbt.RbTree.GetPGp | rbt.c:22-31 | returns the parent of `node` and that parent's parent, NULL (NIL) where either is missing |
| Rbt.RbTree.LinkNode | rbt.c:33-37 | `node` becomes a childless node in the empty slot of the path, with `parent` as its parent; the slot gets `node`; no record outside the tree changes |
| Rbt.RbTree.RotateRight | rbt.c:39-79 | the subtree at gp becomes `RotR` of it, with p moved up into gp's slot; the in-order sequence and the node set are unchanged; records outside the tree are untouched |
| Rbt.RbTree.RotateLeft | rbt.c:81-121 | the mirror image: the subtree at gp becomes `RotL` of it; the in-order sequence and the node set are unchanged |
| Rbt.RbTree.GpLink | rbt.c:50-62 | gp_link is the slot holding gp (a link of its parent, or the root pointer); ggp is gp's parent or NULL |
| Rbt.RbTree.RotRWrites | rbt.c:64-78 | p's right link is gp; gp's left link is n2; gp's slot holds p; the parent links of p, gp and n2 follow; no other record changes |
| Rbt.RbTree.RotLWrites | rbt.c:106-120 | the mirror writes of rotate_left |
| RbModel.RotR | rbt.c:39-79 | a right rotation keeps the in-order sequence and the node set |
| RbModel.RotL | rbt.c:81-121 | a left rotation keeps the in-order sequence and the node set |
| RbLemmas.RotPlug | rbt.c:39-121 | a rotation inside any context keeps ids distinct, the in-order sequence and the node set of the whole tree |
| Rbt.RbTree.SetBlackness | rbt.c:124-382 | every `x->blackness = c` write of rbt.c (lines 124, 137, 144, 154, 326-329, 338-339, 344-348, 355-356, 361-365, 370-371 and 382): the shape is the same tree with that one node recoloured; no other record and no link changes |
| Rbt.RbTree.InsertColor | rbt.c:123-156 | a leaf linked into a red-black tree is painted RED and rebalanced: afterwards the whole tree obeys the red-black rules, with the same in-order sequence and the same nodes; records outside the tree are untouched |
| Rbt.RbTree.InsertStep | rbt.c:126-151 | one pass of the loop, for all four cases (same side or zig-zag, on the left or the right): the loop invariant is kept, the measure decreases, and the order and the nodes are unchanged |
| RbCases.InsStart | rbt.c:124 | a RED leaf hung in a red-black tree meets the insertion loop invariant |
| RbCases.InsLeftLeft | rbt.c:134-137 | p and node both left children: gp is BLACK; after rotating p up and painting node BLACK, the invariant holds one level higher |
| RbCases.InsLeftRight | rbt.c:138-140 | zig-zag on the left: after rotating node up, the invariant holds at p and the measure decreases |
| RbCases.InsRightRight | rbt.c:142-144 | the mirror of InsLeftLeft |
| RbCases.InsRightLeft | rbt.c:145-147 | the mirror of InsLeftRight |
| RbCases.InsExit | rbt.c:153-155 | at loop exit (no parent, or a BLACK parent), painting a parentless node BLACK gives a red-black tree |
| Rbt.RbTree.GreatestLesser | rbt.c:158-169 | NULL exactly when there is no left child; otherwise returns the rightmost node of the left subtree, which is the node just before `parent` in the in-order sequence |
| Rbt.RbTree.LeastGreater | rbt.c:171-182 | NULL exactly when there is no right child; otherwise returns the leftmost node of the right subtree, which is the node just after `parent` in the in-order sequence |
| RbLemmas.SuccessorAt | rbt.c:171-182 | the leftmost node of the right subtree follows the node in the in-order sequence |
| RbLemmas.PredecessorAt | rbt.c:158-169 | the rightmost node of the left subtree precedes the node in the in-order sequence |
| Rbt.RbTree.IsLeaf | rbt.c:184 | true exactly when the node has neither child |
| Rbt.RbTree.FixSelfReferences | rbt.c:186-194 | each of the node's three links that names `from` now names `to`; every other field is unchanged |
| Rbt.RbTree.AssignParentToChildren | rbt.c:196-201 | each non-NULL child of `node` has `node` as its parent; nothing else changes |
| Rbt.RbTree.SwapNodes | rbt.c:203-258 | the stored tree is the old one with ids a and b exchanged (positions and colours swap); the root pointer is renamed; each record is the old record of its partner with a and b renamed; a == b changes nothing |
| Rbt.RbTree.SwapDistinct | rbt.c:217-257 | the same, for a != b |
| Rbt.RbTree.SwapLinks | rbt.c:226-257 | the records go through exactly the writes of swap_nodes, and the children of a and then b are re-adopted |
| Rbt.RbTree.ExchangeRecords | rbt.c:217-231 | `*a` and `*b` are exchanged, and then each one's links to itself are redirected to the other |
| Rbt.RbTree.LinkFromAbove | rbt.c:233-254 | a_link and b_link are chosen from the new parents and the original sides; `*a_link = a` is written, then `*b_link = b` |
| Rbt.RbTree.LinkFromBelow | rbt.c:256-257 | the children of a, then those of b, name their parent |
| RbLemmas.SwapRedBlack | rbt.c:203-258 | exchanging two ids keeps ids distinct, keeps every red-black rule and keeps the black height |
| RbLemmas.SwapIdsSame | rbt.c:203-258 | exchanging two ids of the tree keeps its node set |
| RbLemmas.SwapSuccessor | rbt.c:299-302 | swapping a node with the leftmost node of its right subtree moves it there, with a smaller subtree; leaving the node aside, the in-order sequence is unchanged |
| RbLemmas.SwapPredecessor | rbt.c:299-302 | the same for the rightmost node of the left subtree |
| RbLemmas.PathToUnique | rbt.c:305-306 | in a tree with distinct ids, the path and the subtree at a node are the only ones that plug together to the tree; RbDel uses this to identify a RED leaf's position |
| Rbt.RbTree.GetPSClCr | rbt.c:278-296 | p is the parent; s is the other child of p (NULL at the root); cl and cr are s's children |
| Rbt.RbTree.RbDel | rbt.c:298-390 | removes exactly `node` from a red-black tree: the node set loses `node`; the in-order sequence is the old one without `node`; the red-black rules hold again; removing the last node leaves the root NULL; records outside the tree are untouched; a node that is already a RED leaf is just unlinked, with every other position and colour kept |
| Rbt.RbTree.SwapDown | rbt.c:299-303 | the node is swapped with its successor (or predecessor) until it is a leaf; the tree stays red-black with the same ids, and with `node` set aside its in-order sequence is unchanged; a node that starts as a leaf changes nothing |
| Rbt.RbTree.FixDoubleBlack | rbt.c:309-383 | a BLACK leaf is made DOUBLE_BLACK and the fixup loop runs; afterwards the leaf is a BLACK leaf again, and the tree without it is red-black; order and nodes are unchanged |
| Rbt.RbTree.FixupStep | rbt.c:315-379 | one pass of the fixup loop keeps the loop invariant, decreases the measure, and keeps the order and the nodes |
| Rbt.RbTree.BlackSibling | rbt.c:322-367 | the passes with a BLACK sibling (Case 3, then the mirror of Case 5/6 on current's side) keep the invariant and decrease the measure |
| Rbt.RbTree.LeftSide | rbt.c:333-349 | the left mirror of Cases 5 and 6, with the stale cl and cr read after Case 5, keeps the invariant and decreases the measure |
| Rbt.RbTree.RightSide | rbt.c:350-367 | the right mirror; right after Case 3 (cl and cr both non-RED) it changes nothing |
| Rbt.RbTree.Case3 | rbt.c:323-331 | the new subtree at p is given exactly: p's colour is one more black, s is RED and current BLACK, and only those three records are recoloured; the double black moves up to p, with the fixup invariant kept and a smaller measure; cl and cr stay non-RED |
| Rbt.RbTree.Case3Writes | rbt.c:326-329 | the three colour writes of Case 3; the shape is recoloured accordingly and only p, s and current change |
| Rbt.RbTree.Case4 | rbt.c:368-378 | the new path of current is given exactly, on either side: s is rotated up and is BLACK, and p is RED and now the parent of current, which keeps its double black; the near child of s becomes current's sibling; the fixup invariant is kept and the measure decreases |
| Rbt.RbTree.Case5L | rbt.c:336-341 | cl turns BLACK, s RED and cl is rotated up; the new sibling's far child is RED |
| Rbt.RbTree.Case5R | rbt.c:353-358 | the mirror of Case5L, with cr |
| Rbt.RbTree.Case6L | rbt.c:343-349 | the new path is given exactly: s is rotated up with p's old colour, p is BLACK, cr is BLACK and current is BLACK, so the double black is gone, with the fixup invariant kept |
| Rbt.RbTree.Case6R | rbt.c:360-366 | the mirror of Case6L, with the exact new path: s rotated up with p's old colour, and p, cl and current BLACK |
| RbCases.DelStart | rbt.c:309-311 | a BLACK leaf painted DOUBLE_BLACK in a red-black tree meets the fixup invariant |
| RbCases.DelSibling | rbt.c:319-321 | while current is DOUBLE_BLACK below a parent, its sibling exists and is RED or BLACK, and so are its children |
| RbCases.DelCase3L | rbt.c:323-330 | Case 3 with current on the left keeps the fixup invariant one level up and decreases the measure |
| RbCases.DelCase3R | rbt.c:323-330 | Case 3 with current on the right |
| RbCases.DelCase4L | rbt.c:369-376 | the parent of a RED sibling is BLACK; after Case 4 the invariant holds with a smaller measure |
| RbCases.DelCase4R | rbt.c:369-374 | Case 4 with current on the right |
| RbCases.DelCase5L | rbt.c:336-341 | Case 5 on the left keeps the invariant and decreases the measure |
| RbCases.DelCase5R | rbt.c:353-358 | Case 5 on the right |
| RbCases.DelCase6L | rbt.c:343-349 | Case 6 on the left keeps the invariant with current painted BLACK |
| RbCases.DelCase6R | rbt.c:360-366 | Case 6 on the right |
| RbCases.DelExit | rbt.c:381-383 | at loop exit, after painting a parentless current BLACK, the rules hold with the unlinked node counted as removed |
| RbCases.DelFinish | rbt.c:381-383 | after the fixup, the node to remove is a BLACK leaf and the tree without it is red-black |
| RbCases.RemoveBlackLeaf | rbt.c:385-389 | unlinking the accounted BLACK leaf leaves a red-black tree |
| RbCases.RemoveRedLeaf | rbt.c:305-306 | unlinking a RED leaf from a red-black tree leaves a red-black tree |
| Rbt.RbTree.Unlink | rbt.c:385-389 | the slot holding the leaf is set to NULL; the node set loses the leaf and the in-order sequence loses exactly it |
| IntRbt.Search | rbt.c:392-407 | a non-NULL result is a node of the tree holding `value`; in a search tree, NULL is returned exactly when no node holds `value` |
| IntRbt.SearchStep | rbt.c:395-403 | in a search tree, the values left of a node are below its value and those on the right above, so the walk keeps membership |
| IntRbt.Del | rbt.c:409-420 | returns 0 or 1 and keeps the tree red-black, with the arena's size and values unchanged; 0 changes no record and no root; 1 removes exactly one node holding `value`, and the in-order sequence of the other nodes is kept; in a search tree, 1 is returned exactly when `value` was present, and the values afterwards are the old ones without `value`, still increasing |
| IntRbt.KeysWithout | rbt.c:413 | removing one node from an increasing in-order sequence keeps it increasing and removes exactly that node's value |
| IntRbt.AddWalk | rbt.c:426-438 | the walk stops at a node holding `value`, or at an empty slot whose parent is `parent`; in a search tree that slot lies between the values on either side |
| IntRbt.AddStepLeft | rbt.c:431-432 | a step to the left keeps `value` between the values on either side of the slot |
| IntRbt.AddStepRight | rbt.c:433-434 | a step to the right keeps `value` between the values on either side of the slot |
| IntRbt.AddLeaf | rbt.c:440 | at the empty slot, `value` is absent; the new leaf keeps the values increasing and adds exactly `value` |
| IntRbt.Add | rbt.c:422-443 | allocates one node holding `value` and keeps the tree red-black; 0 leaves the tree unchanged and means `value` was present; 1 adds exactly the new node; in a search tree, 1 is returned exactly when `value` was absent, and the values afterwards are the old ones plus `value`, still increasing |
| Rbt.RbTree.NewNode | rbt.c:423-424 | malloc places a fresh record holding `value` at the end of the arena, outside the tree |

## Left out

- Printing (`print_node_full`, `print_node`, `print_tree`) and `main`: output only, with no effect on the tree.
- Memory: `malloc` is a record appended to the arena, and `free` is not modelled. A freed record stays in the arena, outside the tree, and is never read again.
- Duplicate add: `int_rb_add` on a value already present leaks the node it allocated. The model keeps that record in the arena, outside the tree.
- Record fields before writing: the fields of a freshly allocated record are undefined in C. The model starts them as NIL links and RED; rb_link_node and rb_insert_color overwrite them before any read.
- Rbt.RbTree.GetPSClCr: when s is NULL, rbt.c leaves cl and cr unset. The model returns NIL for them; the callers never read them in that case.
- Rbt.RbTree.GetPGp: the unused `s` argument of get_p_gp is not modelled.
- Pointer arithmetic: container_of is modelled by the `value` sequence indexed by a record's id.
- Rbt.RbTree.NewNode: pointer identity is the arena index, so two live records never alias; address reuse after `free` is not modelled.
- IntRbt.Del: the wrapper's "value present iff 1 is returned" is stated for trees whose values are in search order, which is what int_rb_add builds. For an arbitrary value layout, only "1 means one node holding `value` was removed" is stated.
- IntRbt.Search: the same ordering condition as IntRbt.Del.
- IntRbt.Add: the same ordering condition as IntRbt.Del.
- Integer width: `value` is C `int` and is only compared, never computed with, so unbounded integers do not change the behaviour.
