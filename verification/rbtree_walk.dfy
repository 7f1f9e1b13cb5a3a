/** In-order navigation: rbtree_firstlast, rbtree_walk and rbtree_nearest
    (kern/rbtree.c:357-423).

    A node is addressed by its in-order position in `Elems(t)`, and a NIL
    slot `(parent, index)` by the position of its parent and the child index.
    Walking from a node in direction `d` yields its in-order neighbour on
    that side (`RBTREE_RIGHT` the successor, `RBTREE_LEFT` the predecessor).
    The C code climbs parent pointers when the node has no child on that
    side; the model descends from the root instead and remembers the last
    ancestor it left on the far side, which is the node the climb stops at. */
module RBWalk {
  import opened RBTree
  import opened Options

  /** The element at the `d` end of a non-empty sequence. */
  function End(s: seq<NodeId>, d: Dir): NodeId
    requires |s| > 0
  {
    if d == Left then s[0] else s[|s| - 1]
  }

  /** The first element after gap `g` in direction `d` (gap 0 lies before
      the first element, gap |s| after the last), if there is one. */
  function GapNeighbour(s: seq<NodeId>, g: nat, d: Dir): Option<NodeId>
    requires g <= |s|
  {
    if d == Right then (if g < |s| then Some(s[g]) else None)
    else (if g > 0 then Some(s[g - 1]) else None)
  }

  /** The in-order neighbour of the element at position `k` on side `d`. */
  function Neighbour(s: seq<NodeId>, k: nat, d: Dir): Option<NodeId>
    requires k < |s|
  {
    GapNeighbour(s, if d == Right then k + 1 else k, d)
  }

  /** The gap a NIL slot stands for: the left slot of the node at position
      `p` is the gap just before it, the right slot the gap just after. */
  function SlotGap(p: nat, index: Dir): nat
  {
    if index == Left then p else p + 1
  }

  /** Following `children[d]` from the root of a subtree to the last node. */
  function Extreme(t: Tree, d: Dir): (x: NodeId)
    requires t.Node?
    ensures x == End(Elems(t), d)
  {
    if Child(t, d).Leaf? then t.id else Extreme(Child(t, d), d)
  }

  /** rbtree_firstlast: the loop that follows `children[direction]` from the
      root and keeps the last node met.  The result is the first (`Left`) or
      last (`Right`) node in order, or NULL for an empty tree. */
  method FirstLast(t: Tree, d: Dir) returns (r: Option<NodeId>)
    ensures t.Leaf? ==> r == None
    ensures t.Node? ==> r == Some(End(Elems(t), d))
  {
    r := None;
    var cur := t;
    while cur.Node?
      invariant r.None? ==> cur == t
      invariant r.Some? ==> |Elems(t)| > 0
      invariant cur.Node? ==> |Elems(t)| > 0 && End(Elems(cur), d) == End(Elems(t), d)
      invariant cur.Leaf? && r.Some? ==> r.value == End(Elems(t), d)
      decreases cur
    {
      r := Some(cur.id);
      cur := Child(cur, d);
    }
  }

  /** The walk from the node at position `k`; `anc` is the ancestor the C
      climb would stop at if the node has no child on side `d` and is the
      extreme node of its subtree on that side. */
  function WalkFrom(t: Tree, k: nat, d: Dir, anc: Option<NodeId>): (r: Option<NodeId>)
    requires k < |Elems(t)|
    ensures r == (if Neighbour(Elems(t), k, d).Some? then Neighbour(Elems(t), k, d) else anc)
    decreases t
  {
    var l := t.left;
    if k < |Elems(l)| then
      // going down left: t is the ancestor the climb reaches for a successor
      WalkFrom(l, k, d, if d == Right then Some(t.id) else anc)
    else if k == |Elems(l)| then
      // the node itself: go to the child on side d, then all the way back
      if Child(t, d).Node? then Some(Extreme(Child(t, d), Opp(d))) else anc
    else
      WalkFrom(t.right, k - |Elems(l)| - 1, d, if d == Left then Some(t.id) else anc)
  }

  /** rbtree_walk(node, direction): NULL for a NULL node, otherwise the
      in-order successor (`Right`) or predecessor (`Left`), NULL past the end. */
  function Walk(t: Tree, node: Option<nat>, d: Dir): (r: Option<NodeId>)
    requires node.Some? ==> node.value < |Elems(t)|
    ensures node.None? ==> r.None?
    ensures node.Some? ==> r == Neighbour(Elems(t), node.value, d)
  {
    if node.None? then None else WalkFrom(t, node.value, d, None)
  }

  /** rbtree_nearest(parent, index, direction): the node nearest, in
      direction `d`, to the NIL slot `index` of `parent` -- the neighbour of
      the gap the slot stands for; NULL when the tree is empty. */
  function Nearest(t: Tree, parent: Option<nat>, index: Dir, d: Dir): (r: Option<NodeId>)
    requires parent.Some? ==> parent.value < |Elems(t)|
    ensures parent.None? ==> r.None?
    ensures parent.Some? ==> r == GapNeighbour(Elems(t), SlotGap(parent.value, index), d)
  {
    if parent.None? then None
    else if index != d then Some(Elems(t)[parent.value])
    else Walk(t, parent, d)
  }

  /** The node at position `p` has a NIL child on side `index`. */
  predicate NilSlot(t: Tree, p: nat, index: Dir)
    decreases t
  {
    t.Node? &&
    if p < |Elems(t.left)| then NilSlot(t.left, p, index)
    else if p == |Elems(t.left)| then Child(t, index).Leaf?
    else NilSlot(t.right, p - |Elems(t.left)| - 1, index)
  }

  datatype Slot = Slot(parent: Option<nat>, index: Dir)

  /** Where a descent from the root towards gap `g` reaches a NIL slot: the
      `(parent, index)` pair an rbtree_lookup_slot style search leaves behind
      for the caller of rbtree_nearest. */
  function SlotOf(t: Tree, g: nat): (s: Slot)
    requires g <= |Elems(t)|
    ensures s.parent.None? <==> t.Leaf?
    ensures s.parent.Some? ==>
      s.parent.value < |Elems(t)| && SlotGap(s.parent.value, s.index) == g
      && NilSlot(t, s.parent.value, s.index)
    decreases t
  {
    match t
    case Leaf => Slot(None, Left)
    case Node(_, l, _, rt) =>
      var n := |Elems(l)|;
      if g <= n then
        if l.Leaf? then Slot(Some(n), Left)
        else SlotOf(l, g)
      else if rt.Leaf? then Slot(Some(n), Right)
      else
        var s := SlotOf(rt, g - n - 1);
        Slot(Some(s.parent.value + n + 1), s.index)
  }

  /** The node rbtree_nearest returns for the slot a search ended in is the
      first node past that gap in direction `d`, for every gap and both
      directions; a search in an empty tree yields NULL. */
  lemma NearestOfSlot(t: Tree, g: nat, d: Dir)
    requires g <= |Elems(t)|
    ensures Nearest(t, SlotOf(t, g).parent, SlotOf(t, g).index, d) == GapNeighbour(Elems(t), g, d)
  {
  }

  /** Walking forward then backward returns to the starting node. */
  lemma WalkBack(t: Tree, k: nat, d: Dir)
    requires k < |Elems(t)| && Walk(t, Some(k), d).Some?
    ensures var k1 := if d == Right then k + 1 else k - 1;
      0 <= k1 < |Elems(t)| && Elems(t)[k1] == Walk(t, Some(k), d).value
      && Walk(t, Some(k1), Opp(d)) == Some(Elems(t)[k])
  {
  }
}
