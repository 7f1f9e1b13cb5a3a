/** Destructive post-order traversal: rbtree_find_deepest,
    rbtree_postwalk_deepest and rbtree_postwalk_unlink
    (kern/rbtree.c:425-483).

    A caller empties a tree with
    `for (n = postwalk_deepest(t); n != NULL; n = postwalk_unlink(n))`,
    freeing each node as it goes.  Here a node is addressed by its path from
    the root, so `FindDeepest` returns a path, and unlinking yields the
    remaining tree together with the path of the next node to visit. */
module RBPostwalk {
  import opened RBTree
  import opened Options

  /** Children before their parent, left subtree before right subtree. */
  function PostOrder(t: Tree): seq<NodeId>
  {
    match t
    case Leaf => []
    case Node(_, l, x, r) => PostOrder(l) + PostOrder(r) + [x]
  }

  /** The node has no children. */
  predicate Childless(t: Tree)
  {
    t.Node? && t.left.Leaf? && t.right.Leaf?
  }

  /** rbtree_find_deepest: go left while possible, otherwise right, until a
      childless node; it is the first node of the subtree in post-order. */
  function FindDeepest(t: Tree): (p: seq<Dir>)
    requires t.Node?
    ensures ValidPath(t, p) && Childless(At(t, p))
    ensures At(t, p).id == PostOrder(t)[0]
    decreases t
  {
    if t.left.Node? then [Left] + FindDeepest(t.left)
    else if t.right.Node? then [Right] + FindDeepest(t.right)
    else []
  }

  /** rbtree_postwalk_deepest: NULL for an empty tree. */
  function PostwalkDeepest(t: Tree): (r: Option<seq<Dir>>)
    ensures r.None? <==> t.Leaf?
    ensures r.Some? ==> ValidPath(t, r.value) && At(t, r.value).id == PostOrder(t)[0]
  {
    if t.Leaf? then None else Some(FindDeepest(t))
  }

  /** The position in post-order of the node a path reaches. */
  function PostIndex(t: Tree, p: seq<Dir>): (i: nat)
    requires ValidPath(t, p)
    ensures i < |PostOrder(t)| && PostOrder(t)[i] == At(t, p).id
    decreases |p|
  {
    if |p| == 0 then |PostOrder(t)| - 1
    else if p[0] == Left then
      var j := PostIndex(t.left, p[1..]);
      assert PostOrder(t) == PostOrder(t.left) + (PostOrder(t.right) + [t.id]);
      j
    else
      var j := PostIndex(t.right, p[1..]);
      assert PostOrder(t) == PostOrder(t.left) + PostOrder(t.right) + [t.id];
      |PostOrder(t.left)| + j
  }

  /** The deepest node is the first one in post-order. */
  lemma {:induction false} DeepestIsFirst(t: Tree)
    requires t.Node?
    ensures PostIndex(t, FindDeepest(t)) == 0
    decreases t
  {
    var p := FindDeepest(t);
    if t.left.Node? {
      assert p[0] == Left && p[1..] == FindDeepest(t.left);
      DeepestIsFirst(t.left);
    } else if t.right.Node? {
      assert p[0] == Right && p[1..] == FindDeepest(t.right);
      assert PostOrder(t.left) == [];
      DeepestIsFirst(t.right);
    }
  }

  /** Dropping position `j` of a concatenation drops it from the part that
      holds it. */
  lemma DropFromParts(a: seq<NodeId>, b: seq<NodeId>, j: nat)
    requires j < |a| + |b|
    ensures j < |a| ==> (a + b)[..j] + (a + b)[j + 1..] == (a[..j] + a[j + 1..]) + b
    ensures j >= |a| ==> (a + b)[..j] + (a + b)[j + 1..] == a + (b[..j - |a|] + b[j - |a| + 1..])
  {
    if j < |a| {
      assert (a + b)[..j] == a[..j];
      assert (a + b)[j + 1..] == a[j + 1..] + b;
    } else {
      assert (a + b)[..j] == a + b[..j - |a|];
      assert (a + b)[j + 1..] == b[j - |a| + 1..];
    }
  }

  /** The tree left after unlinking and the node to visit next, if any. */
  datatype Unlinked = Unlinked(tree: Tree, next: Option<seq<Dir>>)

  /** Unlinking the node at `p` took exactly that node out of the
      post-order sequence, and the node handed back is the one that followed
      it in post-order, NULL exactly when it was the last. */
  predicate PostOrderStep(t: Tree, p: seq<Dir>, u: Unlinked)
    requires ValidPath(t, p)
  {
    DropsNode(t, p, u.tree) && NextFollows(t, p, u)
  }

  /** `rest` is the post-order sequence of `t` without the node at `p`. */
  predicate DropsNode(t: Tree, p: seq<Dir>, rest: Tree)
    requires ValidPath(t, p)
  {
    var i := PostIndex(t, p);
    PostOrder(rest) == PostOrder(t)[..i] + PostOrder(t)[i + 1..]
  }

  /** The next node, if any, is the one after the node at `p` in the
      post-order of `t`, and it sits where that node was in `u.tree`. */
  predicate NextFollows(t: Tree, p: seq<Dir>, u: Unlinked)
    requires ValidPath(t, p)
  {
    var i := PostIndex(t, p);
    (u.next.None? <==> i == |PostOrder(t)| - 1)
    && (u.next.Some? ==>
          ValidPath(u.tree, u.next.value)
          && PostIndex(u.tree, u.next.value) == i
          && At(u.tree, u.next.value).id == PostOrder(t)[i + 1])
  }

  /** rbtree_postwalk_unlink on the childless node at path `p`: its parent's
      slot is cleared; the next node is the deepest node of the parent's
      right subtree if there is one, the parent otherwise.  A root has no
      parent and NULL is returned; the C code leaves the tree's root pointer
      alone then, and the model yields the empty tree, since every node has
      been handed out by then.  This holds for any childless node, not only
      the deepest one. */
  function Unlink(t: Tree, p: seq<Dir>): (u: Unlinked)
    requires ValidPath(t, p) && Childless(At(t, p))
    ensures u.next.None? <==> |p| == 0
    ensures PostOrderStep(t, p, u)
    decreases |p|
  {
    if |p| == 0 then
      assert PostOrder(t) == [t.id];
      Unlinked(Leaf, None)
    else if |p| == 1 then
      UnlinkChildOfRoot(t, p);
      var parent := WithChild(t, p[0], Leaf);
      if parent.right.Node? then Unlinked(parent, Some([Right] + FindDeepest(parent.right)))
      else Unlinked(parent, Some([]))
    else
      var u := Unlink(Child(t, p[0]), p[1..]);
      UnlinkBelow(t, p, u);
      Unlinked(WithChild(t, p[0], u.tree), Some([p[0]] + u.next.value))
  }

  /** The unlinked node is a child of the root. */
  lemma UnlinkChildOfRoot(t: Tree, p: seq<Dir>)
    requires ValidPath(t, p) && Childless(At(t, p)) && |p| == 1
    ensures var parent := WithChild(t, p[0], Leaf);
      PostOrderStep(t, p,
        if parent.right.Node? then Unlinked(parent, Some([Right] + FindDeepest(parent.right)))
        else Unlinked(parent, Some([])))
  {
    var parent := WithChild(t, p[0], Leaf);
    assert p[1..] == [];
    if parent.right.Node? {
      var q := FindDeepest(parent.right);
      DeepestIsFirst(parent.right);
      assert ([Right] + q)[0] == Right && ([Right] + q)[1..] == q;
    }
  }

  /** The unlinked node lies deeper: the step in the subtree lifts to the
      whole tree. */
  lemma UnlinkBelow(t: Tree, p: seq<Dir>, u: Unlinked)
    requires ValidPath(t, p) && |p| >= 2
    requires u.next.Some? && PostOrderStep(Child(t, p[0]), p[1..], u)
    ensures PostOrderStep(t, p, Unlinked(WithChild(t, p[0], u.tree), Some([p[0]] + u.next.value)))
  {
    if p[0] == Left {
      DropsBelowLeft(t, p, u.tree);
      NextBelowLeft(t, p, u);
    } else {
      DropsBelowRight(t, p, u.tree);
      NextBelowRight(t, p, u);
    }
  }

  lemma DropsBelowLeft(t: Tree, p: seq<Dir>, rest: Tree)
    requires ValidPath(t, p) && |p| >= 2 && p[0] == Left
    requires DropsNode(t.left, p[1..], rest)
    ensures DropsNode(t, p, t.(left := rest))
  {
    var a, b := PostOrder(t.left), PostOrder(t.right) + [t.id];
    var j := PostIndex(t.left, p[1..]);
    assert PostOrder(t) == a + b && PostIndex(t, p) == j;
    DropFromParts(a, b, j);
    assert PostOrder(t.(left := rest)) == PostOrder(rest) + b;
  }

  lemma DropsBelowRight(t: Tree, p: seq<Dir>, rest: Tree)
    requires ValidPath(t, p) && |p| >= 2 && p[0] == Right
    requires DropsNode(t.right, p[1..], rest)
    ensures DropsNode(t, p, t.(right := rest))
  {
    var a, b := PostOrder(t.left), PostOrder(t.right);
    var j := PostIndex(t.right, p[1..]);
    assert PostOrder(t) == (a + b) + [t.id] && PostIndex(t, p) == |a| + j;
    DropFromParts(a, b, |a| + j);
    DropFromParts(a + b, [t.id], |a| + j);
    assert PostOrder(t.(right := rest)) == (a + PostOrder(rest)) + [t.id];
  }

  lemma NextBelowLeft(t: Tree, p: seq<Dir>, u: Unlinked)
    requires ValidPath(t, p) && |p| >= 2 && p[0] == Left
    requires u.next.Some? && NextFollows(t.left, p[1..], u)
    ensures NextFollows(t, p, Unlinked(t.(left := u.tree), Some([Left] + u.next.value)))
  {
    var q := u.next.value;
    var n := [Left] + q;
    var nt := t.(left := u.tree);
    assert n[0] == Left && n[1..] == q;
    var a, b := PostOrder(t.left), PostOrder(t.right) + [t.id];
    var j := PostIndex(t.left, p[1..]);
    assert PostOrder(t) == a + b && PostIndex(t, p) == j;
    assert PostIndex(nt, n) == PostIndex(u.tree, q);
    assert At(nt, n) == At(u.tree, q);
    assert (a + b)[j + 1] == a[j + 1];
  }

  lemma NextBelowRight(t: Tree, p: seq<Dir>, u: Unlinked)
    requires ValidPath(t, p) && |p| >= 2 && p[0] == Right
    requires u.next.Some? && NextFollows(t.right, p[1..], u)
    ensures NextFollows(t, p, Unlinked(t.(right := u.tree), Some([Right] + u.next.value)))
  {
    var q := u.next.value;
    var n := [Right] + q;
    var nt := t.(right := u.tree);
    assert n[0] == Right && n[1..] == q;
    var a, b := PostOrder(t.left), PostOrder(t.right);
    var j := PostIndex(t.right, p[1..]);
    assert PostOrder(t) == (a + b) + [t.id] && PostIndex(t, p) == |a| + j;
    assert PostIndex(nt, n) == |a| + PostIndex(u.tree, q);
    assert At(nt, n) == At(u.tree, q);
    assert ((a + b) + [t.id])[|a| + j + 1] == b[j + 1];
  }

  /** rbtree_postwalk_unlink as called: a NULL node gives NULL and leaves
      the tree alone. */
  function PostwalkUnlink(t: Tree, node: Option<seq<Dir>>): (u: Unlinked)
    requires node.Some? ==> ValidPath(t, node.value) && Childless(At(t, node.value))
    ensures node.None? ==> u.tree == t && u.next.None?
    ensures node.Some? ==> (u.next.None? <==> |node.value| == 0)
    ensures u.next.Some? ==> ValidPath(u.tree, u.next.value)
  {
    if node.None? then Unlinked(t, None) else Unlink(t, node.value)
  }

  /** One step of the destructive walk: unlinking the deepest node takes the
      first node off the post-order sequence, and the node returned is the
      deepest node of what is left, so it is the next one in post-order. */
  lemma UnlinkDeepestIsNextInPostOrder(t: Tree)
    requires t.Node?
    ensures PostOrder(Unlink(t, FindDeepest(t)).tree) == PostOrder(t)[1..]
    ensures Unlink(t, FindDeepest(t)).next.None? <==> |PostOrder(t)| == 1
    ensures Unlink(t, FindDeepest(t)).next.Some? ==>
      Unlink(t, FindDeepest(t)).tree.Node? &&
      Unlink(t, FindDeepest(t)).next.value == FindDeepest(Unlink(t, FindDeepest(t)).tree)
  {
    DeepestIsFirst(t);
    UnlinkDeepestReturnsDeepest(t);
  }

  /** The path returned after unlinking the deepest node is the path
      rbtree_find_deepest takes in what is left. */
  lemma {:induction false} UnlinkDeepestReturnsDeepest(t: Tree)
    requires t.Node?
    ensures Unlink(t, FindDeepest(t)).next.Some? ==>
      Unlink(t, FindDeepest(t)).tree.Node? &&
      Unlink(t, FindDeepest(t)).next.value == FindDeepest(Unlink(t, FindDeepest(t)).tree)
    decreases t
  {
    var p := FindDeepest(t);
    if t.left.Node? {
      var q := FindDeepest(t.left);
      assert p == [Left] + q && p[0] == Left && p[1..] == q;
      if |q| != 0 {
        UnlinkDeepestReturnsDeepest(t.left);
        var u := Unlink(t.left, q);
        assert Unlink(t, p) == Unlinked(t.(left := u.tree), Some([Left] + u.next.value));
      }
    } else if t.right.Node? {
      var q := FindDeepest(t.right);
      assert p == [Right] + q && p[0] == Right && p[1..] == q;
      if |q| != 0 {
        UnlinkDeepestReturnsDeepest(t.right);
        var u := Unlink(t.right, q);
        assert Unlink(t, p) == Unlinked(t.(right := u.tree), Some([Right] + u.next.value));
      }
    }
  }

  /** The whole `postwalk_deepest` / `postwalk_unlink` loop: the nodes are
      handed out exactly in post-order, each while it has no children. */
  method PostWalk(t: Tree) returns (visited: seq<NodeId>)
    ensures visited == PostOrder(t)
  {
    visited := [];
    var cur := t;
    var node := PostwalkDeepest(t);
    while node.Some?
      invariant node.Some? ==> cur.Node? && node.value == FindDeepest(cur)
      invariant node.Some? ==> visited + PostOrder(cur) == PostOrder(t)
      invariant node.None? ==> visited == PostOrder(t)
      decreases if node.Some? then |PostOrder(cur)| else 0
    {
      var x, u := VisitDeepest(cur, node.value);
      visited := visited + [x];
      cur, node := u.tree, u.next;
    }
  }

  /** One round of the caller's loop: hand out the deepest node, then
      unlink it with rbtree_postwalk_unlink. */
  method VisitDeepest(cur: Tree, p: seq<Dir>) returns (x: NodeId, u: Unlinked)
    requires cur.Node? && p == FindDeepest(cur)
    ensures [x] + PostOrder(u.tree) == PostOrder(cur)
    ensures u.next.None? <==> |PostOrder(cur)| == 1
    ensures u.next.Some? ==> u.tree.Node? && u.next.value == FindDeepest(u.tree)
  {
    x := At(cur, p).id;
    UnlinkDeepestIsNextInPostOrder(cur);
    u := PostwalkUnlink(cur, Some(p));
    assert u == Unlink(cur, p);
    assert x == PostOrder(cur)[0] && PostOrder(u.tree) == PostOrder(cur)[1..];
  }
}
