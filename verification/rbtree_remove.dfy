/** rbtree_remove (kern/rbtree.c:217-355).

    The C code first unlinks the node (lines 222-287): a node with at most
    one child is replaced by that child; a node with two children is
    replaced by its in-order successor, which takes the node's place and
    colour while the successor's own right child takes the successor's old
    place.  If the unlinked position lost a black node, the `update_color`
    loop (lines 289-354) walks up and repairs the missing black.

    In the functional version every subtree rebuilt on the way up reports
    whether it is one black node `short` of what it was.  A short subtree
    whose root is red is painted black at once, which is the test at the top
    of the C loop; a short subtree is otherwise repaired at its parent by the
    same four cases the C code distinguishes; a shortage that reaches the
    root is dropped, as the C loop stops at `parent == NULL`. */
module RBRemove {
  import opened RBTree
  import RBInsert

  datatype Removal = Removal(tree: Tree, short: bool)

  /** The test at the top of the C loop: a short subtree with a red root gets
      the missing black back by painting the root black. */
  function Absorb(t: Tree, short: bool): (r: Removal)
    ensures Elems(r.tree) == Elems(t)
    ensures r.short ==> short && !IsRed(r.tree)
    ensures !r.short && short ==> IsRed(t) && r.tree == Paint(t, Black)
    ensures NoRedRed(t) ==> NoRedRed(r.tree)
    ensures BlackBalanced(t) ==> BlackBalanced(r.tree)
  {
    if short && IsRed(t) then Removal(Paint(t, Black), false) else Removal(t, short)
  }

  /** One round of the C loop when the short child `x` is the left child of
      `y` (colour `c`) and its brother `b` is black. */
  function FixShortLeftBlackBrother(c: Color, x: Tree, y: NodeId, b: Tree): (r: Removal)
    requires b.Node?
    ensures Elems(r.tree) == Elems(x) + [y] + Elems(b)
  {
    if !IsRed(b.left) && !IsRed(b.right) then
      // brother has no red child: recolour and repeat at the parent
      Absorb(Node(c, x, y, Paint(b, Red)), true)
    else
      // brother's right child is black: recolour and rotate right at brother
      var b1 := if !IsRed(b.right) then Rotate(Node(Red, Paint(b.left, Black), b.id, b.right), Right) else b;
      // brother takes the parent's colour, parent and brother's right child
      // turn black, rotate left at the parent and leave
      Removal(Rotate(Node(Black, x, y, Node(c, b1.left, b1.id, Paint(b1.right, Black))), Left), false)
  }

  /** The mirror image: the short child is the right child. */
  function FixShortRightBlackBrother(c: Color, b: Tree, y: NodeId, x: Tree): (r: Removal)
    requires b.Node?
    ensures Elems(r.tree) == Elems(b) + [y] + Elems(x)
  {
    if !IsRed(b.left) && !IsRed(b.right) then
      Absorb(Node(c, Paint(b, Red), y, x), true)
    else
      var b1 := if !IsRed(b.left) then Rotate(Node(Red, b.left, b.id, Paint(b.right, Black)), Left) else b;
      Removal(Rotate(Node(Black, Node(c, Paint(b1.left, Black), b1.id, b1.right), y, x), Right), false)
  }

  /** One round of the C loop for a short left child, including the red
      brother case: recolour, rotate left at the parent, and carry on with
      the new (black) brother under the now red parent. */
  function FixShortLeft(c: Color, x: Tree, y: NodeId, b: Tree): (r: Removal)
    requires b.Node? && (IsRed(b) ==> b.left.Node?)
    ensures Elems(r.tree) == Elems(x) + [y] + Elems(b)
  {
    if IsRed(b) then
      var t1 := Rotate(Node(Red, x, y, Paint(b, Black)), Left);
      var inner := FixShortLeftBlackBrother(Red, x, y, b.left);
      Removal(t1.(left := inner.tree), inner.short)
    else
      FixShortLeftBlackBrother(c, x, y, b)
  }

  function FixShortRight(c: Color, b: Tree, y: NodeId, x: Tree): (r: Removal)
    requires b.Node? && (IsRed(b) ==> b.right.Node?)
    ensures Elems(r.tree) == Elems(b) + [y] + Elems(x)
  {
    if IsRed(b) then
      var t1 := Rotate(Node(Red, Paint(b, Black), y, x), Right);
      var inner := FixShortRightBlackBrother(Red, b.right, y, x);
      Removal(t1.(right := inner.tree), inner.short)
    else
      FixShortRightBlackBrother(c, b, y, x)
  }

  /** What the recursion promises about a subtree rebuilt from one whose
      black height was `h` and whose root was red only if `mayBeRed`: no
      red-red violation, balanced, and either of the same black height or
      `short` by one with a root that is not red. */
  predicate Repaired(r: Removal, h: nat, mayBeRed: bool)
  {
    && NoRedRed(r.tree) && BlackBalanced(r.tree)
    && BlackHeight(r.tree) + (if r.short then 1 else 0) == h
    && (IsRed(r.tree) ==> mayBeRed)
    && (r.short ==> !IsRed(r.tree))
  }

  /** The black height a node of colour `c` has above a child of height `h`. */
  function Above(c: Color, h: nat): nat
  {
    h + (if c == Black then 1 else 0)
  }

  lemma FixShortLeftBlackBrotherSound(c: Color, x: Tree, y: NodeId, b: Tree)
    requires b.Node? && !IsRed(b) && !IsRed(x)
    requires NoRedRed(x) && NoRedRed(b) && BlackBalanced(x) && BlackBalanced(b)
    requires BlackHeight(b) == BlackHeight(x) + 1
    ensures Repaired(FixShortLeftBlackBrother(c, x, y, b), Above(c, BlackHeight(b)), c == Red)
  {
    if !(!IsRed(b.left) && !IsRed(b.right)) && !IsRed(b.right) {
      assert b.left.Node?;
    }
  }

  lemma FixShortRightBlackBrotherSound(c: Color, b: Tree, y: NodeId, x: Tree)
    requires b.Node? && !IsRed(b) && !IsRed(x)
    requires NoRedRed(x) && NoRedRed(b) && BlackBalanced(x) && BlackBalanced(b)
    requires BlackHeight(b) == BlackHeight(x) + 1
    ensures Repaired(FixShortRightBlackBrother(c, b, y, x), Above(c, BlackHeight(b)), c == Red)
  {
    if !(!IsRed(b.left) && !IsRed(b.right)) && !IsRed(b.left) {
      assert b.right.Node?;
    }
  }

  lemma FixShortLeftSound(c: Color, x: Tree, y: NodeId, b: Tree)
    requires b.Node? && !IsRed(x) && (c == Red ==> !IsRed(b))
    requires NoRedRed(x) && NoRedRed(b) && BlackBalanced(x) && BlackBalanced(b)
    requires BlackHeight(b) == BlackHeight(x) + 1
    ensures IsRed(b) ==> b.left.Node?
    ensures Repaired(FixShortLeft(c, x, y, b), Above(c, BlackHeight(b)), c == Red)
  {
    if IsRed(b) {
      FixShortLeftBlackBrotherSound(Red, x, y, b.left);
    } else {
      FixShortLeftBlackBrotherSound(c, x, y, b);
    }
  }

  lemma FixShortRightSound(c: Color, b: Tree, y: NodeId, x: Tree)
    requires b.Node? && !IsRed(x) && (c == Red ==> !IsRed(b))
    requires NoRedRed(x) && NoRedRed(b) && BlackBalanced(x) && BlackBalanced(b)
    requires BlackHeight(b) == BlackHeight(x) + 1
    ensures IsRed(b) ==> b.right.Node?
    ensures Repaired(FixShortRight(c, b, y, x), Above(c, BlackHeight(b)), c == Red)
  {
    if IsRed(b) {
      FixShortRightBlackBrotherSound(Red, b.right, y, x);
    } else {
      FixShortRightBlackBrotherSound(c, b, y, x);
    }
  }

  /** Rebuild node `y` (colour `c`) whose left subtree came back as `d`; the
      right subtree `b` is untouched. */
  function RebuildLeft(c: Color, d: Removal, y: NodeId, b: Tree): (r: Removal)
    requires NoRedRed(b) && BlackBalanced(b) && (c == Red ==> !IsRed(b))
    requires Repaired(d, BlackHeight(b), c == Black)
    ensures Elems(r.tree) == Elems(d.tree) + [y] + Elems(b)
    ensures Repaired(r, Above(c, BlackHeight(b)), c == Red)
  {
    if d.short then
      FixShortLeftSound(c, d.tree, y, b);
      FixShortLeft(c, d.tree, y, b)
    else
      Removal(Node(c, d.tree, y, b), false)
  }

  function RebuildRight(c: Color, b: Tree, y: NodeId, d: Removal): (r: Removal)
    requires NoRedRed(b) && BlackBalanced(b) && (c == Red ==> !IsRed(b))
    requires Repaired(d, BlackHeight(b), c == Black)
    ensures Elems(r.tree) == Elems(b) + [y] + Elems(d.tree)
    ensures Repaired(r, Above(c, BlackHeight(b)), c == Red)
  {
    if d.short then
      FixShortRightSound(c, b, y, d.tree);
      FixShortRight(c, b, y, d.tree)
    else
      Removal(Node(c, b, y, d.tree), false)
  }

  /** The result of unlinking the in-order first node of a subtree: what is
      left of the subtree, and the identity of the node taken out. */
  datatype MinRemoval = MinRemoval(rest: Removal, succ: NodeId)

  /** Take out the left-most node of a non-empty subtree: the successor
      search of the two-children case (kern/rbtree.c:233-236), its
      replacement by its right child (line 261) and the repair above it. */
  function RemoveMin(t: Tree): (m: MinRemoval)
    requires t.Node? && NoRedRed(t) && BlackBalanced(t)
    ensures m.succ == Elems(t)[0]
    ensures Elems(m.rest.tree) == Elems(t)[1..]
    ensures Repaired(m.rest, BlackHeight(t), IsRed(t))
    decreases t
  {
    var Node(c, l, y, r) := t;
    if l.Leaf? then
      MinRemoval(Absorb(r, c == Black), y)
    else
      var m := RemoveMin(l);
      MinRemoval(RebuildLeft(c, m.rest, y, r), m.succ)
  }

  /** Unlink the root of a subtree (kern/rbtree.c:222-287) and repair. */
  function RemoveRoot(t: Tree): (r: Removal)
    requires t.Node? && NoRedRed(t) && BlackBalanced(t)
    ensures Elems(r.tree) == Elems(t.left) + Elems(t.right)
    ensures Repaired(r, BlackHeight(t), IsRed(t))
  {
    var Node(c, l, y, rt) := t;
    if l.Leaf? then
      // the node has at most one child, the right one
      Absorb(rt, c == Black)
    else if rt.Leaf? then
      Absorb(l, c == Black)
    else
      // two children: the successor takes the node's place and colour
      var m := RemoveMin(rt);
      RebuildRight(c, l, m.succ, m.rest)
  }

  /** Removing position `k` from the in-order sequence of `Node(_, l, y, r)`
      when `k` falls inside `l`, on `y`, or inside `r`. */
  lemma DropFromConcat(a: seq<NodeId>, y: NodeId, b: seq<NodeId>, k: nat)
    requires k < |a| + 1 + |b|
    ensures k < |a| ==> (a + [y] + b)[..k] + (a + [y] + b)[k + 1..] == a[..k] + a[k + 1..] + [y] + b
    ensures k == |a| ==> (a + [y] + b)[..k] + (a + [y] + b)[k + 1..] == a + b
    ensures k > |a| ==>
      (a + [y] + b)[..k] + (a + [y] + b)[k + 1..] == a + [y] + (b[..k - |a| - 1] + b[k - |a|..])
  {
    var s := a + [y] + b;
    if k < |a| {
      assert s[..k] == a[..k];
      assert s[k + 1..] == a[k + 1..] + [y] + b;
    } else if k == |a| {
      assert s[..k] == a;
      assert s[k + 1..] == b;
    } else {
      assert s[..k] == a + [y] + b[..k - |a| - 1];
      assert s[k + 1..] == b[k - |a|..];
    }
  }

  /** Remove the node at in-order position `k`. */
  function Del(t: Tree, k: nat): (r: Removal)
    requires k < |Elems(t)| && NoRedRed(t) && BlackBalanced(t)
    ensures Elems(r.tree) == Elems(t)[..k] + Elems(t)[k + 1..]
    ensures Repaired(r, BlackHeight(t), IsRed(t))
    decreases t
  {
    var Node(c, l, y, rt) := t;
    DropFromConcat(Elems(l), y, Elems(rt), k);
    if k < |Elems(l)| then
      RebuildLeft(c, Del(l, k), y, rt)
    else if k == |Elems(l)| then
      RemoveRoot(t)
    else
      RebuildRight(c, l, y, Del(rt, k - |Elems(l)| - 1))
  }

  /** rbtree_remove on the node at in-order position `k`: exactly that node
      leaves the in-order sequence, the others keep their order, and the
      red-black invariants hold again with a black (or no) root. */
  function Remove(t: Tree, k: nat): (r: Tree)
    requires IsRedBlack(t) && k < |Elems(t)|
    ensures Elems(r) == Elems(t)[..k] + Elems(t)[k + 1..]
    ensures IsRedBlack(r)
  {
    Del(t, k).tree
  }

  /** In the two-children case the in-order successor, the first node of the
      right subtree, takes the node's place and keeps the node's colour and
      left subtree; when nothing above the successor's old place needs
      repair the result is exactly that. */
  lemma SuccessorTakesPlace(t: Tree)
    requires t.Node? && t.left.Node? && t.right.Node? && NoRedRed(t) && BlackBalanced(t)
    requires !RemoveMin(t.right).rest.short
    ensures RemoveRoot(t).tree.Node?
    ensures RemoveRoot(t).tree.id == Elems(t)[|Elems(t.left)| + 1]
    ensures RemoveRoot(t).tree.color == t.color && RemoveRoot(t).tree.left == t.left
  {
  }

  /** With distinct identities, removal takes out exactly the node at `k`:
      it is gone, every other node is still there, and no node is repeated. */
  lemma RemoveDropsExactlyThatNode(t: Tree, k: nat)
    requires IsRedBlack(t) && k < |Elems(t)| && Distinct(Elems(t))
    ensures Distinct(Elems(Remove(t, k)))
    ensures Elems(t)[k] !in Elems(Remove(t, k))
    ensures forall i :: 0 <= i < |Elems(t)| && i != k ==> Elems(t)[i] in Elems(Remove(t, k))
  {
    DropOne(Elems(t), k);
  }

  lemma DropOne(s: seq<NodeId>, k: nat)
    requires k < |s| && Distinct(s)
    ensures Distinct(s[..k] + s[k + 1..])
    ensures s[k] !in s[..k] + s[k + 1..]
    ensures forall i :: 0 <= i < |s| && i != k ==> s[i] in s[..k] + s[k + 1..]
  {
    var r := s[..k] + s[k + 1..];
    forall i | 0 <= i < |s| && i != k
      ensures s[i] in r
    {
      if i < k { assert r[i] == s[i]; } else { assert r[i - 1] == s[i]; }
    }
    forall i, j | 0 <= i < j < |r|
      ensures r[i] != r[j]
    {
      var i1 := if i < k then i else i + 1;
      var j1 := if j < k then j else j + 1;
      assert r[i] == s[i1] && r[j] == s[j1];
    }
    forall i | 0 <= i < |r|
      ensures r[i] != s[k]
    {
      var i1 := if i < k then i else i + 1;
      assert r[i] == s[i1];
    }
  }

  /** Removing the node just inserted at position `k` gives back the
      in-order sequence from before the insertion. */
  lemma InsertThenRemove(t: Tree, k: nat, x: NodeId)
    requires IsRedBlack(t) && k <= |Elems(t)|
    ensures IsRedBlack(RBInsert.Insert(t, k, x))
      && Elems(Remove(RBInsert.Insert(t, k, x), k)) == Elems(t)
  {
    RBInsert.InsertKeepsRedBlack(t, k, x);
    var s := Elems(t);
    SpliceDrop(s[..k], x, s[k..]);
    assert s[..k] + s[k..] == s;
  }

  lemma SpliceDrop(a: seq<NodeId>, x: NodeId, b: seq<NodeId>)
    ensures (a + [x] + b)[..|a|] + (a + [x] + b)[|a| + 1..] == a + b
  {
    var s := a + [x] + b;
    assert s[..|a|] == a;
    assert s[|a| + 1..] == b;
  }
}
