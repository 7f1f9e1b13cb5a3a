/** rbtree_insert_rebalance (kern/rbtree.c:147-215).

    The caller has already found the NIL slot `(parent, index)` where the new
    node goes; in an in-order view every NIL slot is one gap of the in-order
    sequence, so the model addresses the slot by its gap `k` (0 = before the
    first node, |Elems(t)| = after the last one).  The node is attached red
    and childless, then the C loop walks up repairing red-red violations:
    a red uncle means a colour flip and another round at the grandparent; a
    black uncle means one or two rotations and the loop stops.  The
    functional version does the same work as the recursion unwinds: the
    repair of a violation between a node and its parent happens when the
    grandparent's level is rebuilt. */
module RBInsert {
  import opened RBTree

  /** The repair the C loop performs at a grandparent whose `left` child `p`
      (the parent) may be red with a red child (the node); `u` is the uncle. */
  function FixLeft(c: Color, p: Tree, y: NodeId, u: Tree): (r: Tree)
    ensures Elems(r) == Elems(p) + [y] + Elems(u)
    ensures r.Node?
  {
    if IsRed(p) && (IsRed(p.left) || IsRed(p.right)) then
      if IsRed(u) then
        // uncle is red: flip colours and repeat at the grandparent
        Node(Red, Paint(p, Black), y, Paint(u, Black))
      else
        // node is the right child of its parent: rotate left at the parent
        var p1 := if IsRed(p.left) then p else Rotate(p, Left);
        // parent black, grandparent red, rotate right at the grandparent
        Rotate(Node(Red, Paint(p1, Black), y, u), Right)
    else
      Node(c, p, y, u)
  }

  /** The mirror image: the parent `p` is the grandparent's right child. */
  function FixRight(c: Color, u: Tree, y: NodeId, p: Tree): (r: Tree)
    ensures Elems(r) == Elems(u) + [y] + Elems(p)
    ensures r.Node?
  {
    if IsRed(p) && (IsRed(p.left) || IsRed(p.right)) then
      if IsRed(u) then
        Node(Red, Paint(u, Black), y, Paint(p, Black))
      else
        var p1 := if IsRed(p.right) then p else Rotate(p, Right);
        Rotate(Node(Red, u, y, Paint(p1, Black)), Left)
    else
      Node(c, u, y, p)
  }

  /** Attach node `x` red and childless in the NIL slot of gap `k` and repair
      on the way up. */
  function Ins(t: Tree, k: nat, x: NodeId): (r: Tree)
    requires k <= |Elems(t)|
    ensures Elems(r) == Elems(t)[..k] + [x] + Elems(t)[k..]
    ensures r.Node?
    decreases t
  {
    match t
    case Leaf => Node(Red, Leaf, x, Leaf)
    case Node(c, l, y, rt) =>
      if k <= |Elems(l)| then
        var l1 := Ins(l, k, x);
        assert Elems(t)[..k] == Elems(l)[..k];
        assert Elems(t)[k..] == Elems(l)[k..] + [y] + Elems(rt);
        FixLeft(c, l1, y, rt)
      else
        var k1 := k - |Elems(l)| - 1;
        var r1 := Ins(rt, k1, x);
        assert Elems(t)[..k] == Elems(l) + [y] + Elems(rt)[..k1];
        assert Elems(t)[k..] == Elems(rt)[k1..];
        FixRight(c, l, y, r1)
  }

  /** The whole of rbtree_insert_rebalance: when the repair reaches the root
      (`parent == NULL`) the root is painted black. */
  function Insert(t: Tree, k: nat, x: NodeId): (r: Tree)
    requires k <= |Elems(t)|
    ensures Elems(r) == Elems(t)[..k] + [x] + Elems(t)[k..]
    ensures |Elems(r)| == |Elems(t)| + 1 && Elems(r)[k] == x
  {
    Paint(Ins(t, k, x), Black)
  }

  /** The placement step alone: the node linked red and childless into the
      slot, before any repair (kern/rbtree.c:156-163). */
  function Attach(t: Tree, k: nat, x: NodeId): (r: Tree)
    requires k <= |Elems(t)|
    ensures Elems(r) == Elems(t)[..k] + [x] + Elems(t)[k..]
    ensures r.Node? && (t.Node? ==> r.color == t.color && r.id == t.id)
    decreases t
  {
    match t
    case Leaf => Node(Red, Leaf, x, Leaf)
    case Node(c, l, y, rt) =>
      if k <= |Elems(l)| then
        assert Elems(t)[..k] == Elems(l)[..k];
        assert Elems(t)[k..] == Elems(l)[k..] + [y] + Elems(rt);
        Node(c, Attach(l, k, x), y, rt)
      else
        var k1 := k - |Elems(l)| - 1;
        assert Elems(t)[..k] == Elems(l) + [y] + Elems(rt)[..k1];
        assert Elems(t)[k..] == Elems(rt)[k1..];
        Node(c, l, y, Attach(rt, k1, x))
  }

  /** When the freshly attached red node has a black parent (or is the new
      root's only content below a black node), the C loop stops at once:
      rebalancing leaves the attached tree as it is. */
  lemma {:induction false} NoViolationNoRepair(t: Tree, k: nat, x: NodeId)
    requires k <= |Elems(t)|
    requires NoRedRed(Attach(t, k, x))
    ensures Ins(t, k, x) == Attach(t, k, x)
    decreases t
  {
    match t
    case Leaf =>
    case Node(c, l, y, rt) =>
      if k <= |Elems(l)| {
        NoViolationNoRepair(l, k, x);
      } else {
        NoViolationNoRepair(rt, k - |Elems(l)| - 1, x);
      }
  }

  /** Only the root may be red with a red child, and then only one of them. */
  predicate RedRedOnlyAtRoot(t: Tree)
  {
    t.Node? ==>
      NoRedRed(t.left) && NoRedRed(t.right) && (IsRed(t) ==> !IsRed(t.left) || !IsRed(t.right))
  }

  lemma FixLeftSound(c: Color, p: Tree, y: NodeId, u: Tree)
    requires BlackBalanced(p) && BlackBalanced(u) && BlackHeight(p) == BlackHeight(u)
    requires RedRedOnlyAtRoot(p) && NoRedRed(u) && p.Node?
    requires c == Red ==> NoRedRed(p) && !IsRed(u)
    ensures var r := FixLeft(c, p, y, u);
      BlackBalanced(r) && BlackHeight(r) == BlackHeight(p) + (if c == Black then 1 else 0)
      && RedRedOnlyAtRoot(r) && (c == Black ==> NoRedRed(r))
  {
    if IsRed(p) && (IsRed(p.left) || IsRed(p.right)) && !IsRed(u) && !IsRed(p.left) {
      assert p.right.Node?;
    }
  }

  lemma FixRightSound(c: Color, u: Tree, y: NodeId, p: Tree)
    requires BlackBalanced(p) && BlackBalanced(u) && BlackHeight(p) == BlackHeight(u)
    requires RedRedOnlyAtRoot(p) && NoRedRed(u) && p.Node?
    requires c == Red ==> NoRedRed(p) && !IsRed(u)
    ensures var r := FixRight(c, u, y, p);
      BlackBalanced(r) && BlackHeight(r) == BlackHeight(p) + (if c == Black then 1 else 0)
      && RedRedOnlyAtRoot(r) && (c == Black ==> NoRedRed(r))
  {
    if IsRed(p) && (IsRed(p.left) || IsRed(p.right)) && !IsRed(u) && !IsRed(p.right) {
      assert p.left.Node?;
    }
  }

  /** The invariant the recursion keeps: the black height does not change,
      at most one red-red violation sits at the root, and none at all when
      the subtree's root was black. */
  lemma {:induction false} InsSound(t: Tree, k: nat, x: NodeId)
    requires k <= |Elems(t)| && NoRedRed(t) && BlackBalanced(t)
    ensures BlackBalanced(Ins(t, k, x)) && BlackHeight(Ins(t, k, x)) == BlackHeight(t)
    ensures RedRedOnlyAtRoot(Ins(t, k, x))
    ensures !IsRed(t) ==> NoRedRed(Ins(t, k, x))
    decreases t
  {
    match t
    case Leaf =>
    case Node(c, l, y, rt) =>
      if k <= |Elems(l)| {
        InsSound(l, k, x);
        FixLeftSound(c, Ins(l, k, x), y, rt);
      } else {
        InsSound(rt, k - |Elems(l)| - 1, x);
        FixRightSound(c, l, y, Ins(rt, k - |Elems(l)| - 1, x));
      }
  }

  /** After insert rebalancing the root is black, no red node has a red
      child and all root-to-NIL paths carry the same number of black nodes
      (kern/rbtree.c:165-214). */
  lemma InsertKeepsRedBlack(t: Tree, k: nat, x: NodeId)
    requires IsRedBlack(t) && k <= |Elems(t)|
    ensures IsRedBlack(Insert(t, k, x))
  {
    InsSound(t, k, x);
  }

  /** A node whose identity is not yet in the tree keeps the identities distinct. */
  lemma InsertKeepsDistinct(t: Tree, k: nat, x: NodeId)
    requires k <= |Elems(t)| && Distinct(Elems(t)) && x !in Elems(t)
    ensures Distinct(Elems(Insert(t, k, x)))
  {
    var s := Elems(t);
    assert s == s[..k] + s[k..];
    DistinctSplice(s[..k], x, s[k..]);
  }

  lemma DistinctSplice(a: seq<NodeId>, x: NodeId, b: seq<NodeId>)
    requires Distinct(a + b) && x !in a + b
    ensures Distinct(a + [x] + b)
  {
    var s := a + b;
    var r := a + [x] + b;
    forall i, j | 0 <= i < j < |r|
      ensures r[i] != r[j]
    {
      var i1 := if i < |a| then i else i - 1;
      var j1 := if j < |a| then j else j - 1;
      if i == |a| {
        assert r[j] == s[j1];
      } else if j == |a| {
        assert r[i] == s[i1];
      } else {
        assert r[i] == s[i1] && r[j] == s[j1];
      }
    }
  }
}
