/**
 * The iterative binary search tree: the tree handle, search, insertion,
 * promotion of the rightmost node, deletion and disposal. Every operation is a
 * pointer-chasing loop over the linked nodes; each is proved to do to the
 * ghost picture of the tree what the functions of module Updates say, and to
 * leave the record of the nodes' fields in step with the heap.
 */
module Btree {
  import opened Trees
  import opened Zipper
  import Updates
  import opened Writes
  import Orders
  import Walks

  /**
   * Lookup by iterative descent. On success `stored` is the node's value; on
   * failure it is the caller's `value`, untouched.
   */
  method Search(tree: Node?, key: char, value: int, ghost t: Tree, ghost h: Heap) returns (found: bool, stored: int)
    requires Root(t) == tree && Linked(t, h) && Mirrors(h) && Ordered(t)
    ensures found <==> key in Contents(t)
    ensures stored == if found then Contents(t)[key] else value
  {
    var node := tree;
    ghost var sub := t;
    Updates.FindIsLookup(t, key);
    while node != null
      invariant Root(sub) == node && Linked(sub, h)
      invariant Updates.Find(sub, key) == Updates.Find(t, key)
      decreases sub
    {
      assert h[node] == Snap(node);
      if node.key == key {
        return true, node.value;
      } else if node.key > key {
        node := node.left;
        sub := sub.left;
      } else {
        node := node.right;
        sub := sub.right;
      }
    }
    return false, value;
  }

  /**
   * Promotion of the rightmost node of the subtree `tree` into `target`: the
   * walk starts at the right child of `tree`, so that child must exist; the
   * rightmost node hands its key and value to `target`, its parent on the
   * right spine takes over its left subtree, and it is released.
   */
  method ReplaceByRightmost(target: Node, tree: Node, ghost s: Tree, ghost h: Heap) returns (ghost h': Heap)
    requires s.Branch? && s.node == tree && s.right.Branch?
    requires Linked(s, h) && Distinct(s) && Mirrors(h) && target in h && target !in Nodes(s)
    modifies target, Nodes(s)
    ensures RightmostParent(s).node in h
    ensures target.key == Updates.Rightmost(s).key && target.value == Updates.Rightmost(s).value
    ensures h' == RemoveRightmostCells(s, h)[target := h[target].(key := Updates.Rightmost(s).key, value := Updates.Rightmost(s).value)]
    ensures Mirrors(h')
  {
    RemoveRightmostWrite(s, h);
    assert h[tree] == Snap(tree);
    var node := tree.right;
    var last := tree;
    ghost var above, here := s, s.right;
    while node.right != null
      invariant above.Branch? && above.node == last && above.right == here
      invariant here.Branch? && here.node == node && Linked(here, h)
      invariant RightmostParent(above) == RightmostParent(s)
      decreases here
    {
      assert h[node] == Snap(node);
      last := node;
      node := node.right;
      above, here := here, here.right;
    }
    assert h[node] == Snap(node);
    h' := RemoveRightmostCells(s, h)[target := h[target].(key := node.key, value := node.value)];
    label promote:
    target.key := node.key;
    target.value := node.value;
    last.right := node.left;
    forall y | y in h' ensures h'[y] == Snap(y) {
      if y != target && y != last { assert old@promote(h[y] == Snap(y)); }
    }
  }

  /**
   * The parent's rewrite shared by the deletion of a node with at most one
   * child: whichever link of `last` points to `node` now points to `child`,
   * and `node` is released.
   */
  method ReplaceByChild(last: Node, node: Node, child: Node?, ghost ctx: Path, ghost sub: Tree, ghost h: Heap)
    returns (ghost h': Heap)
    requires Linked(Plug(ctx, sub), h) && Distinct(Plug(ctx, sub)) && h.Keys == Nodes(Plug(ctx, sub)) && Mirrors(h)
    requires ctx.Down? && ctx.frame.node == last && sub.Branch? && sub.node == node
    requires !(sub.left.Branch? && sub.right.Branch?) && child == Root(Updates.RemoveRoot(sub))
    modifies last
    ensures Linked(Plug(ctx, Updates.RemoveRoot(sub)), h') && h'.Keys == Nodes(Plug(ctx, Updates.RemoveRoot(sub)))
    ensures Mirrors(h')
  {
    UnlinkWrite(ctx, sub, h);
    h' := UnlinkCells(ctx, sub, h);
    assert h[last] == Snap(last);
    label unlink:
    if last.left == node {
      last.left := child;
    } else {
      last.right := child;
    }
    forall y | y in h' ensures h'[y] == Snap(y) {
      if y != last { assert old@unlink(h[y] == Snap(y)); }
    }
  }

  /**
   * The deletion of a node with two children, `bst_replace_by_rightmost(node,
   * &(node->left))`: the node takes over the entry of the rightmost node of
   * its left subtree, which is released. The walk in the helper starts at the
   * right child of the left child, so that child must exist.
   */
  method ReplaceByPredecessor(node: Node, ghost ctx: Path, ghost sub: Tree, ghost h: Heap) returns (ghost h': Heap)
    requires Linked(Plug(ctx, sub), h) && Distinct(Plug(ctx, sub)) && h.Keys == Nodes(Plug(ctx, sub)) && Mirrors(h)
    requires sub.Branch? && sub.node == node && sub.left.Branch? && sub.right.Branch? && sub.left.right.Branch?
    modifies Nodes(sub)
    ensures Linked(Plug(ctx, Updates.RemoveRoot(sub)), h') && h'.Keys == Nodes(Plug(ctx, Updates.RemoveRoot(sub)))
    ensures Mirrors(h')
  {
    PromoteWrite(ctx, sub, h);
    PlugDistinct(ctx, sub);
    PlugLinked(ctx, sub, h);
    LinkedNodes(sub, h);
    assert h[node] == Snap(node);
    h' := ReplaceByRightmost(node, node.left, sub.left, h);
    assert h' == PromoteCells(sub, h);
  }

  /**
   * The tree handle: the cell that holds the pointer to the root node. The
   * picture of the tree it refers to and the record of the fields of the
   * nodes it owns are ghost values the caller threads through the operations.
   */
  class Bst {
    var root: Node?

    /** The handle refers to the tree `t`, an ordered tree without sharing whose nodes are recorded in `h`. */
    ghost predicate Valid(t: Tree, h: Heap)
      reads this
    {
      Root(t) == root && h.Keys == Nodes(t) && Distinct(t) && Ordered(t) && Linked(t, h)
    }

    /** Initialisation: the handle refers to the empty tree. */
    method Init() returns (ghost t: Tree, ghost h: Heap)
      modifies this
      ensures Valid(t, h) && Mirrors(h) && root == null && t == Nil
    {
      root := null;
      t, h := Nil, map[];
    }

    /**
     * Insertion or overwrite. The node is allocated first; `allocFails` stands
     * for the allocator returning no memory, in which case nothing changes.
     * When the key is present the spare node is released again.
     */
    method Insert(key: char, value: int, allocFails: bool, ghost t: Tree, ghost h: Heap)
      returns (ghost leaf: Node?, ghost t': Tree, ghost h': Heap)
      requires Valid(t, h) && Mirrors(h)
      modifies this, h.Keys
      ensures Valid(t', h') && Mirrors(h')
      ensures allocFails ==> leaf == null && t' == t && h' == h && unchanged(this) && unchanged(h.Keys)
      ensures !allocFails ==> leaf != null && fresh(leaf) && t' == Updates.Insert(t, key, value, leaf)
    {
      if allocFails {
        return null, t, h;
      }
      var n := new Node(key, value);
      leaf := n;
      t' := Updates.Insert(t, key, value, n);
      Updates.InsertOrdered(t, key, value, n);
      Updates.InsertDistinct(t, key, value, n);
      assert n !in h;
      if root == null {
        root := n;
        h' := map[n := Snap(n)];
        return;
      }
      var node := root;
      ghost var ctx: Path := Top;
      ghost var sub := t;
      // The descent stops at the node holding the key or at the node whose
      // child on the way is missing; the write at that node ends the insertion.
      while true
        invariant sub.Branch? && sub.node == node && Plug(ctx, sub) == t && Linked(sub, h)
        invariant Plug(ctx, Updates.Insert(sub, key, value, n)) == t'
        decreases sub
      {
        assert h[node] == Snap(node);
        if node.key == key {
          break;
        } else if node.key > key {
          if node.left == null {
            break;
          }
          ctx, sub := Down(Frame(Left, node, sub.key, sub.value, sub.right), ctx), sub.left;
          node := node.left;
        } else {
          if node.right == null {
            break;
          }
          ctx, sub := Down(Frame(Right, node, sub.key, sub.value, sub.left), ctx), sub.right;
          node := node.right;
        }
      }
      assert h[node] == Snap(node);
      InsertWrite(ctx, sub, h, key, value, n);
      h' := InsertCells(sub, h, key, value, n);
      if node.key == key {
        label found:
        node.value := value;
        forall y | y in h' ensures h'[y] == Snap(y) {
          if y != node { assert old@found(h[y] == Snap(y)); }
        }
      } else if node.key > key {
        label attachLeft:
        node.left := n;
        forall y | y in h' ensures h'[y] == Snap(y) {
          if y != node && y != n { assert old@attachLeft(h[y] == Snap(y)); }
        }
      } else {
        label attachRight:
        node.right := n;
        forall y | y in h' ensures h'[y] == Snap(y) {
          if y != node && y != n { assert old@attachRight(h[y] == Snap(y)); }
        }
      }
    }

    /**
     * Deletion. The descent keeps `last`, the parent of the current node; it
     * is never set before the first step, so a match at the root is only
     * defined when the root has two children. A node without children is
     * unlinked from its parent, a node with one child is replaced by it, and a
     * node with two children takes the entry of the rightmost node of its left
     * subtree. An absent key leaves the tree as it is. The handle itself is
     * never written.
     */
    method Delete(key: char, ghost t: Tree, ghost h: Heap) returns (ghost t': Tree, ghost h': Heap)
      requires Valid(t, h) && Mirrors(h) && Updates.DeleteDefined(t, key)
      modifies h.Keys
      ensures Valid(t', h') && Mirrors(h')
      ensures t' == Updates.Delete(t, key)
    {
      t' := Updates.Delete(t, key);
      Updates.DeleteOrdered(t, key);
      Updates.DeleteDistinct(t, key);
      Updates.DeleteKeepsRoot(t, key);
      var node := root;
      var last: Node? := null;
      ghost var ctx: Path := Top;
      ghost var sub := t;
      while node != null
        invariant Root(sub) == node && Plug(ctx, sub) == t && Linked(sub, h)
        invariant Plug(ctx, Updates.Delete(sub, key)) == t'
        invariant ctx.Down? ==> last == ctx.frame.node
        invariant Updates.PromotionDefined(sub, key)
        invariant ctx.Top? && sub.Branch? && sub.key == key ==> sub.left.Branch? && sub.right.Branch?
        decreases sub
      {
        assert h[node] == Snap(node);
        if node.key == key {
          break;
        }
        last := node;
        if node.key > key {
          ctx, sub := Down(Frame(Left, node, sub.key, sub.value, sub.right), ctx), sub.left;
          node := node.left;
        } else {
          ctx, sub := Down(Frame(Right, node, sub.key, sub.value, sub.left), ctx), sub.right;
          node := node.right;
        }
      }
      if node == null {
        h' := h;
        return;
      }
      assert h[node] == Snap(node);
      assert t' == Plug(ctx, Updates.RemoveRoot(sub));
      PlugLinked(ctx, sub, h);
      if node.left == null && node.right == null {
        h' := ReplaceByChild(last, node, null, ctx, sub, h);
      } else if node.left != null && node.right != null {
        PlugNodes(ctx, sub);
        h' := ReplaceByPredecessor(node, ctx, sub, h);
      } else {
        h' := ReplaceByChild(last, node, if node.right != null then node.right else node.left, ctx, sub, h);
      }
    }

    /**
     * Disposal: every node of the tree is released (see `Release`) and the
     * handle is reset to the empty tree. `freed` lists the released nodes in
     * the order of release.
     */
    method Dispose(ghost t: Tree, ghost h: Heap) returns (ghost freed: seq<Node>)
      requires Root(t) == root && Linked(t, h) && Mirrors(h)
      modifies this
      ensures root == null && Valid(Nil, map[])
      ensures freed == Orders.InorderNodes(t)
    {
      freed := Walks.Release(root, t, h);
      root := null;
    }
  }
}
