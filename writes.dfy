/**
 * The record of the nodes' fields after each kind of write the tree
 * operations perform at the end of a descent, and the proof that the record
 * after the write describes the updated picture of the tree node for node.
 * The methods of module Btree perform the writes on the heap; these lemmas
 * carry the linkage, so that each method only has to show that its writes
 * are the ones the record lists.
 */
module Writes {
  import opened Trees
  import opened Zipper
  import Updates

  // Insertion: a value overwritten in place, or a new leaf hung below the
  // node where the descent fell off.

  /** The record after insertion has written at the reached node `sub.node`. */
  ghost function InsertCells(sub: Tree, h: Heap, key: char, value: int, n: Node): Heap
    requires sub.Branch? && sub.node in h
  {
    if sub.key == key then h[sub.node := h[sub.node].(value := value)]
    else if sub.key > key then h[sub.node := h[sub.node].(left := n)][n := Cell(key, value, null, null)]
    else h[sub.node := h[sub.node].(right := n)][n := Cell(key, value, null, null)]
  }

  /**
   * Writing at the node where the descent of insertion stops leaves the record
   * describing the tree after insertion, node for node.
   */
  lemma InsertWrite(ctx: Path, sub: Tree, h: Heap, key: char, value: int, n: Node)
    requires Linked(Plug(ctx, sub), h) && Distinct(Plug(ctx, sub)) && h.Keys == Nodes(Plug(ctx, sub))
    requires sub.Branch? && n !in h
    requires sub.key > key ==> sub.left == Nil
    requires sub.key < key ==> sub.right == Nil
    ensures sub.node in h
    ensures Linked(Plug(ctx, Updates.Insert(sub, key, value, n)), InsertCells(sub, h, key, value, n))
    ensures InsertCells(sub, h, key, value, n).Keys == Nodes(Plug(ctx, Updates.Insert(sub, key, value, n)))
  {
    PlugLinked(ctx, sub, h);
    PlugDistinct(ctx, sub);
    PlugNodes(ctx, sub);
    var sub' := Updates.Insert(sub, key, value, n);
    var h' := InsertCells(sub, h, key, value, n);
    if sub.key == key {
      LinkedUpdate(sub.left, h, sub.node, h'[sub.node]);
      LinkedUpdate(sub.right, h, sub.node, h'[sub.node]);
      PathLinkedUpdate(ctx, sub.node, h, sub.node, h'[sub.node]);
    } else {
      var h1 := h[sub.node := if sub.key > key then h[sub.node].(left := n) else h[sub.node].(right := n)];
      var other := if sub.key > key then sub.right else sub.left;
      LinkedUpdate(other, h, sub.node, h1[sub.node]);
      LinkedUpdate(other, h1, n, h'[n]);
      PathLinkedUpdate(ctx, sub.node, h, sub.node, h1[sub.node]);
      PathLinkedUpdate(ctx, sub.node, h1, n, h'[n]);
      assert Linked(Branch(Nil, n, key, value, Nil), h');
    }
    PlugLinked(ctx, sub', h');
    PlugNodes(ctx, sub');
  }

  // Deletion of a node with at most one child: the parent's link to it is
  // redirected to the child that moves up (or to nothing) and the node is released.

  /** The record after the parent on the path, `ctx.frame.node`, has dropped the reached node. */
  ghost function UnlinkCells(ctx: Path, sub: Tree, h: Heap): Heap
    requires ctx.Down? && sub.Branch? && ctx.frame.node in h
  {
    var f := ctx.frame;
    var moved := Root(Updates.RemoveRoot(sub));
    (h - {sub.node})[f.node := if f.dir == Left then h[f.node].(left := moved) else h[f.node].(right := moved)]
  }

  /**
   * The parent's left link is the reached node exactly when the descent went
   * left; after the parent is redirected and the node released, the record
   * describes the tree with the reached branch removed.
   */
  lemma UnlinkWrite(ctx: Path, sub: Tree, h: Heap)
    requires Linked(Plug(ctx, sub), h) && Distinct(Plug(ctx, sub)) && h.Keys == Nodes(Plug(ctx, sub))
    requires ctx.Down? && sub.Branch? && !(sub.left.Branch? && sub.right.Branch?)
    ensures ctx.frame.node in h
    ensures h[ctx.frame.node].left == sub.node <==> ctx.frame.dir == Left
    ensures Linked(Plug(ctx, Updates.RemoveRoot(sub)), UnlinkCells(ctx, sub, h))
    ensures UnlinkCells(ctx, sub, h).Keys == Nodes(Plug(ctx, Updates.RemoveRoot(sub)))
  {
    var f, up := ctx.frame, ctx.up;
    var rest := Updates.RemoveRoot(sub);
    PlugLinked(ctx, sub, h);
    PlugDistinct(ctx, sub);
    PlugDistinct(up, Attach(f, sub));
    PlugNodes(ctx, sub);
    PlugNodes(ctx, rest);
    assert Nodes(rest) == Nodes(sub) - {sub.node};
    if f.sibling.Branch? {
      assert Root(f.sibling) in Nodes(f.sibling);
    }
    var h' := UnlinkCells(ctx, sub, h);
    LinkedAway(rest, h, sub.node, f.node, h'[f.node]);
    LinkedAway(f.sibling, h, sub.node, f.node, h'[f.node]);
    PathLinkedAway(up, f.node, h, sub.node, f.node, h'[f.node]);
    assert PathLinked(ctx, Root(rest), h');
    PlugLinked(ctx, rest, h');
  }

  // Deletion of a node with two children: the rightmost node of its left
  // subtree hands over its entry and is released; its parent on the right
  // spine takes over its left subtree.

  /** The branch whose right child is the rightmost branch. */
  ghost function RightmostParent(s: Tree): (p: Tree)
    requires s.Branch? && s.right.Branch?
    ensures p.Branch? && p.right.Branch? && p.right.right.Nil?
  {
    if s.right.right.Nil? then s else RightmostParent(s.right)
  }

  /** The record after the rightmost node of `s` is unlinked from its parent and released. */
  ghost function RemoveRightmostCells(s: Tree, h: Heap): Heap
    requires s.Branch? && s.right.Branch? && RightmostParent(s).node in h
  {
    var p := RightmostParent(s);
    (h - {p.right.node})[p.node := h[p.node].(right := Root(p.right.left))]
  }

  /**
   * The rightmost branch is the right child of its parent on the spine; both
   * belong to the tree, and after the parent takes over the rightmost
   * branch's left subtree the record describes the tree without it.
   */
  lemma {:induction false} RemoveRightmostWrite(s: Tree, h: Heap)
    requires s.Branch? && s.right.Branch? && Linked(s, h) && Distinct(s)
    ensures RightmostParent(s).right == Updates.Rightmost(s)
    ensures RightmostParent(s).node in Nodes(s) && Updates.Rightmost(s).node in Nodes(s)
    ensures RightmostParent(s).node != Updates.Rightmost(s).node
    ensures RightmostParent(s).node in h
    ensures Linked(Updates.RemoveRightmost(s), RemoveRightmostCells(s, h))
    ensures Root(Updates.RemoveRightmost(s)) == s.node
  {
    var p := RightmostParent(s);
    if s.right.right.Nil? {
      var h' := RemoveRightmostCells(s, h);
      LinkedAway(s.left, h, s.right.node, s.node, h'[s.node]);
      LinkedAway(s.right.left, h, s.right.node, s.node, h'[s.node]);
    } else {
      RemoveRightmostWrite(s.right, h);
      var h' := RemoveRightmostCells(s, h);
      LinkedAway(s.left, h, p.right.node, p.node, h'[p.node]);
    }
  }

  /** The record after deletion of the reached branch `sub`, whose two children are present. */
  ghost function PromoteCells(sub: Tree, h: Heap): Heap
    requires sub.Branch? && sub.left.Branch? && sub.left.right.Branch?
    requires RightmostParent(sub.left).node in h && sub.node in h
  {
    var m := Updates.Rightmost(sub.left);
    RemoveRightmostCells(sub.left, h)[sub.node := h[sub.node].(key := m.key, value := m.value)]
  }

  /** After the promotion the record describes the tree with the reached branch removed. */
  lemma PromoteWrite(ctx: Path, sub: Tree, h: Heap)
    requires Linked(Plug(ctx, sub), h) && Distinct(Plug(ctx, sub)) && h.Keys == Nodes(Plug(ctx, sub))
    requires sub.Branch? && sub.left.Branch? && sub.right.Branch? && sub.left.right.Branch?
    ensures RightmostParent(sub.left).node in h && sub.node in h
    ensures Linked(Plug(ctx, Updates.RemoveRoot(sub)), PromoteCells(sub, h))
    ensures PromoteCells(sub, h).Keys == Nodes(Plug(ctx, Updates.RemoveRoot(sub)))
  {
    var s := sub.left;
    var m, p := Updates.Rightmost(s), RightmostParent(s);
    var rest := Updates.RemoveRoot(sub);
    PlugLinked(ctx, sub, h);
    PlugDistinct(ctx, sub);
    PlugNodes(ctx, sub);
    PlugNodes(ctx, rest);
    RemoveRightmostWrite(s, h);
    Updates.RemoveRightmostNodes(s);
    var h1 := RemoveRightmostCells(s, h);
    var h' := PromoteCells(sub, h);
    LinkedUpdate(Updates.RemoveRightmost(s), h1, sub.node, h'[sub.node]);
    LinkedAway(sub.right, h, m.node, p.node, h1[p.node]);
    LinkedUpdate(sub.right, h1, sub.node, h'[sub.node]);
    PathLinkedAway(ctx, sub.node, h, m.node, p.node, h1[p.node]);
    PathLinkedUpdate(ctx, sub.node, h1, sub.node, h'[sub.node]);
    assert Linked(rest, h');
    PlugLinked(ctx, rest, h');
  }
}
