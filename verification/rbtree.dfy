/** The red-black tree of kern/rbtree.c as an algebraic datatype.

    The C nodes carry a parent pointer with the colour packed into its low
    bit, and two child pointers indexed by RBTREE_LEFT (0) and RBTREE_RIGHT (1).
    Here a node is a `Node(color, left, id, right)` value: the parent link is
    implicit in the nesting, the colour is a field of its own, and `id` stands
    for the node's identity (its address).  The C code never compares keys,
    so the abstraction of a tree is the in-order sequence of node identities,
    `Elems`.  The classic invariants are stated as predicates:
    `NoRedRed` (a red node has no red child), `BlackBalanced` (every path from
    a node down to a NIL slot meets the same number of black nodes) and a
    black root. */
module RBTree {

  /** The identity of a node: its address in the C code. */
  type NodeId = nat

  datatype Color = Red | Black

  /** RBTREE_LEFT and RBTREE_RIGHT. */
  datatype Dir = Left | Right

  /** `1 - direction` in the C code. */
  function Opp(d: Dir): (e: Dir)
    ensures e != d
  {
    if d == Left then Right else Left
  }

  datatype Tree = Leaf | Node(color: Color, left: Tree, id: NodeId, right: Tree)

  /** `node->children[d]`. */
  function Child(t: Tree, d: Dir): Tree
    requires t.Node?
  {
    if d == Left then t.left else t.right
  }

  /** The in-order sequence of node identities. */
  function Elems(t: Tree): seq<NodeId>
  {
    match t
    case Leaf => []
    case Node(_, l, x, r) => Elems(l) + [x] + Elems(r)
  }

  /** A NIL child counts as black (the C code tests `child == NULL || is_black`). */
  predicate IsRed(t: Tree)
  {
    t.Node? && t.color == Red
  }

  /** rbtree_set_color on a node; a NIL slot stays NIL. */
  function Paint(t: Tree, c: Color): (r: Tree)
    ensures Elems(r) == Elems(t)
    ensures r.Leaf? <==> t.Leaf?
    ensures r.Node? ==> r.color == c && r.left == t.left && r.id == t.id && r.right == t.right
  {
    if t.Leaf? then Leaf else t.(color := c)
  }

  /** No red node has a red child. */
  predicate NoRedRed(t: Tree)
  {
    match t
    case Leaf => true
    case Node(c, l, _, r) =>
      NoRedRed(l) && NoRedRed(r) && (c == Red ==> !IsRed(l) && !IsRed(r))
  }

  /** Number of black nodes on the left-most path down to a NIL slot. */
  function BlackHeight(t: Tree): nat
  {
    match t
    case Leaf => 0
    case Node(c, l, _, _) => BlackHeight(l) + (if c == Black then 1 else 0)
  }

  /** Every path from a node to a NIL slot meets the same number of black nodes. */
  predicate BlackBalanced(t: Tree)
  {
    match t
    case Leaf => true
    case Node(_, l, _, r) =>
      BlackBalanced(l) && BlackBalanced(r) && BlackHeight(l) == BlackHeight(r)
  }

  /** The red-black tree invariant the C code keeps between operations. */
  predicate IsRedBlack(t: Tree)
  {
    !IsRed(t) && NoRedRed(t) && BlackBalanced(t)
  }

  /** The identities are pairwise distinct: each node is linked at most once. */
  predicate Distinct(s: seq<NodeId>)
  {
    forall i, j :: 0 <= i < j < |s| ==> s[i] != s[j]
  }

  /** rbtree_rotate(tree, node, direction) on the subtree rooted at `node`.
      The child opposite to `direction` takes the node's place and the node
      becomes that child's `direction` child; colours travel with the nodes. */
  function Rotate(t: Tree, d: Dir): (r: Tree)
    requires t.Node? && Child(t, Opp(d)).Node?
    ensures Elems(r) == Elems(t)
    ensures r.Node? && r.id == Child(t, Opp(d)).id && r.color == Child(t, Opp(d)).color
    ensures Child(r, d).Node? && Child(r, d).id == t.id && Child(r, d).color == t.color
  {
    if d == Left then
      var rn := t.right;
      Node(rn.color, Node(t.color, t.left, t.id, rn.left), rn.id, rn.right)
    else
      var rn := t.left;
      Node(rn.color, rn.left, rn.id, Node(t.color, rn.right, t.id, t.right))
  }

  /** Rotating back the other way restores the subtree, colours included. */
  lemma RotateInverse(t: Tree, d: Dir)
    requires t.Node? && Child(t, Opp(d)).Node?
    ensures Child(Rotate(t, d), d).Node? && Rotate(Rotate(t, d), Opp(d)) == t
  {
  }

  /** A path from the root: the sequence of child indices followed. */
  predicate ValidPath(t: Tree, p: seq<Dir>)
    decreases |p|
  {
    t.Node? && (|p| == 0 || ValidPath(Child(t, p[0]), p[1..]))
  }

  /** The subtree whose root the path reaches. */
  function At(t: Tree, p: seq<Dir>): (s: Tree)
    requires ValidPath(t, p)
    ensures s.Node?
    decreases |p|
  {
    if |p| == 0 then t else At(Child(t, p[0]), p[1..])
  }

  /** Following one more child index after a path. */
  lemma {:induction false} AtAppend(t: Tree, p: seq<Dir>, d: Dir)
    requires ValidPath(t, p) && Child(At(t, p), d).Node?
    ensures ValidPath(t, p + [d]) && At(t, p + [d]) == Child(At(t, p), d)
    decreases |p|
  {
    if |p| == 0 {
      assert p + [d] == [d];
      assert [d][1..] == [];
    } else {
      assert (p + [d])[0] == p[0];
      assert (p + [d])[1..] == p[1..] + [d];
      AtAppend(Child(t, p[0]), p[1..], d);
    }
  }

  /** Replace the child of `t` in direction `d`. */
  function WithChild(t: Tree, d: Dir, c: Tree): (r: Tree)
    requires t.Node?
    ensures r.Node? && r.color == t.color && r.id == t.id
    ensures Child(r, d) == c && Child(r, Opp(d)) == Child(t, Opp(d))
  {
    if d == Left then t.(left := c) else t.(right := c)
  }

  /** rbtree_rotate applied to the node a path from the root reaches: the
      rotated subtree is written back into the same slot of the same parent
      (or becomes the root when the path is empty). */
  function RotateAt(t: Tree, p: seq<Dir>, d: Dir): (r: Tree)
    requires ValidPath(t, p) && Child(At(t, p), Opp(d)).Node?
    ensures ValidPath(r, p) && At(r, p) == Rotate(At(t, p), d)
    decreases |p|
  {
    if |p| == 0 then Rotate(t, d)
    else WithChild(t, p[0], RotateAt(Child(t, p[0]), p[1..], d))
  }

  /** Rotation keeps the in-order sequence, puts the former child in the
      rotated node's slot and hangs the rotated node below it. */
  lemma {:induction false} RotateAtPreservesOrder(t: Tree, p: seq<Dir>, d: Dir)
    requires ValidPath(t, p) && Child(At(t, p), Opp(d)).Node?
    ensures Elems(RotateAt(t, p, d)) == Elems(t)
    ensures At(RotateAt(t, p, d), p).id == Child(At(t, p), Opp(d)).id
    ensures ValidPath(RotateAt(t, p, d), p + [d])
    ensures At(RotateAt(t, p, d), p + [d]).id == At(t, p).id
    decreases |p|
  {
    var r := RotateAt(t, p, d);
    AtAppend(r, p, d);
    if |p| != 0 {
      RotateAtPreservesOrder(Child(t, p[0]), p[1..], d);
    }
  }
}
