/**
 * The three iterative depth-first walks. Each keeps an explicit stack of
 * node pointers (postorder a second stack of first-visit marks) and hands
 * every node's key and value to the visitor; what the visitor receives is
 * returned, in order, as the walk's output. Each walk is proved to produce
 * the recursive walk of module Orders, and none writes to the nodes.
 */
module Walks {
  import opened Trees
  import opened Orders

  /**
   * The leftmost walk of preorder: every node down the left spine of `tree`
   * is visited and pushed, top first.
   */
  method LeftmostPreorder(tree: Node?, toVisit: seq<Node>, ghost t: Tree, ghost stack: Frames<Tree>, ghost h: Heap)
    returns (visited: seq<Entry>, toVisit': seq<Node>, ghost stack': Frames<Tree>)
    requires Root(t) == tree && Linked(t, h) && Mirrors(h) && Stacked(toVisit, stack, h)
    ensures visited == SpineEntries(t)
    ensures stack' == PushSpine(stack, t) && Stacked(toVisit', stack', h)
  {
    var node := tree;
    visited, toVisit', stack' := [], toVisit, stack;
    ghost var sub := t;
    while node != null
      invariant Root(sub) == node && Linked(sub, h)
      invariant visited + SpineEntries(sub) == SpineEntries(t)
      invariant PushSpine(stack', sub) == PushSpine(stack, t)
      invariant Stacked(toVisit', stack', h)
      decreases sub
    {
      assert h[node] == Snap(node);
      Regroup(visited, [(node.key, node.value)], SpineEntries(sub.left));
      visited := visited + [(node.key, node.value)];
      StackedPush(toVisit', stack', h, sub);
      toVisit', stack' := toVisit' + [node], Above(stack', sub);
      node, sub := node.left, sub.left;
    }
  }

  /** Preorder walk: each node is visited before its left and then its right subtree. */
  method Preorder(tree: Node?, ghost t: Tree, ghost h: Heap) returns (out: seq<Entry>)
    requires Root(t) == tree && Linked(t, h) && Mirrors(h)
    ensures out == Orders.Preorder(t)
  {
    var s: seq<Node>;
    ghost var stack: Frames<Tree>;
    PreorderByStack(t, Bottom);
    out, s, stack := LeftmostPreorder(tree, [], t, Bottom, h);
    while |s| > 0
      invariant Stacked(s, stack, h)
      invariant out + PreorderRest(stack) == Orders.Preorder(t)
      decreases |PreorderRest(stack)|, Depth(stack)
    {
      var node := s[|s| - 1];
      s := s[..|s| - 1];
      assert h[node] == Snap(node);
      PreorderStep(out, stack);
      var visited;
      visited, s, stack := LeftmostPreorder(node.right, s, stack.top.right, stack.below, h);
      out := out + visited;
    }
  }

  /** The leftmost walk of inorder: every node down the left spine of `tree` is pushed, top first. */
  method LeftmostInorder(tree: Node?, toVisit: seq<Node>, ghost t: Tree, ghost stack: Frames<Tree>, ghost h: Heap)
    returns (toVisit': seq<Node>, ghost stack': Frames<Tree>)
    requires Root(t) == tree && Linked(t, h) && Mirrors(h) && Stacked(toVisit, stack, h)
    ensures stack' == PushSpine(stack, t) && Stacked(toVisit', stack', h)
  {
    var node := tree;
    toVisit', stack' := toVisit, stack;
    ghost var sub := t;
    while node != null
      invariant Root(sub) == node && Linked(sub, h)
      invariant PushSpine(stack', sub) == PushSpine(stack, t)
      invariant Stacked(toVisit', stack', h)
      decreases sub
    {
      assert h[node] == Snap(node);
      StackedPush(toVisit', stack', h, sub);
      toVisit', stack' := toVisit' + [node], Above(stack', sub);
      node, sub := node.left, sub.left;
    }
  }

  /** Inorder walk: each node is visited after its left and before its right subtree. */
  method Inorder(tree: Node?, ghost t: Tree, ghost h: Heap) returns (out: seq<Entry>)
    requires Root(t) == tree && Linked(t, h) && Mirrors(h)
    ensures out == Orders.Inorder(t)
  {
    var s: seq<Node>;
    ghost var stack: Frames<Tree>;
    InorderByStack(t, Bottom);
    s, stack := LeftmostInorder(tree, [], t, Bottom, h);
    out := [];
    while |s| > 0
      invariant Stacked(s, stack, h)
      invariant out + InorderRest(stack) == Orders.Inorder(t)
      decreases |InorderRest(stack)|
    {
      var node := s[|s| - 1];
      s := s[..|s| - 1];
      assert h[node] == Snap(node);
      InorderStep(out, stack);
      out := out + [(node.key, node.value)];
      s, stack := LeftmostInorder(node.right, s, stack.top.right, stack.below, h);
    }
  }

  /**
   * The leftmost walk of postorder: every node down the left spine of `tree`
   * is pushed, top first, each with the mark of its first visit.
   */
  method LeftmostPostorder(tree: Node?, toVisit: seq<Node>, firstVisit: seq<bool>,
                           ghost t: Tree, ghost stack: Frames<(Tree, bool)>, ghost h: Heap)
    returns (toVisit': seq<Node>, firstVisit': seq<bool>, ghost stack': Frames<(Tree, bool)>)
    requires Root(t) == tree && Linked(t, h) && Mirrors(h) && MarkedStacked(toVisit, firstVisit, stack, h)
    ensures stack' == PushMarkedSpine(stack, t) && MarkedStacked(toVisit', firstVisit', stack', h)
  {
    var node := tree;
    toVisit', firstVisit', stack' := toVisit, firstVisit, stack;
    ghost var sub := t;
    while node != null
      invariant Root(sub) == node && Linked(sub, h)
      invariant PushMarkedSpine(stack', sub) == PushMarkedSpine(stack, t)
      invariant MarkedStacked(toVisit', firstVisit', stack', h)
      decreases sub
    {
      assert h[node] == Snap(node);
      MarkedStackedPush(toVisit', firstVisit', stack', h, sub, true);
      toVisit', firstVisit', stack' := toVisit' + [node], firstVisit' + [true], Above(stack', (sub, true));
      node, sub := node.left, sub.left;
    }
  }

  /**
   * Postorder walk: the node on top of the stack is looked at without
   * removing it; on its first visit its mark is flipped and the left spine
   * of its right subtree pushed, on its second it is removed and visited.
   */
  method Postorder(tree: Node?, ghost t: Tree, ghost h: Heap) returns (out: seq<Entry>)
    requires Root(t) == tree && Linked(t, h) && Mirrors(h)
    ensures out == Orders.Postorder(t)
  {
    var nodes: seq<Node>, marks: seq<bool>;
    ghost var stack: Frames<(Tree, bool)>;
    PostorderByStack(t, Bottom);
    nodes, marks, stack := LeftmostPostorder(tree, [], [], t, Bottom, h);
    out := [];
    while |nodes| > 0
      invariant MarkedStacked(nodes, marks, stack, h)
      invariant out + PostorderRest(stack) == Orders.Postorder(t)
      decreases PostorderWork(stack)
    {
      var node := nodes[|nodes| - 1];
      var first := marks[|marks| - 1];
      marks := marks[..|marks| - 1];
      assert h[node] == Snap(node);
      ghost var top := stack.top.0;
      if first {
        PostorderDescend(stack);
        MarkedStackedPush(nodes[..|nodes| - 1], marks, stack.below, h, top, false);
        assert nodes[..|nodes| - 1] + [node] == nodes;
        marks := marks + [false];
        nodes, marks, stack := LeftmostPostorder(node.right, nodes, marks, top.right, Above(stack.below, (top, false)), h);
      } else {
        PostorderVisit(out, stack);
        nodes, stack := nodes[..|nodes| - 1], stack.below;
        out := out + [(node.key, node.value)];
      }
    }
  }

  /**
   * The release loop of disposal, with an explicit stack: the left spine of
   * the tree is pushed; then each popped node has the left spine of its
   * right subtree pushed before it is released. `freed` lists the released
   * nodes in the order of release, which is the inorder of the nodes.
   * Disposal does not rely on the search-tree order, only on the nodes
   * forming a tree without sharing. The two spine-pushing loops are the loop
   * of the leftmost walk of inorder.
   */
  method Release(tree: Node?, ghost t: Tree, ghost h: Heap) returns (ghost freed: seq<Node>)
    requires Root(t) == tree && Linked(t, h) && Mirrors(h)
    ensures freed == InorderNodes(t)
  {
    var s: seq<Node>;
    ghost var stack: Frames<Tree>;
    s, stack := LeftmostInorder(tree, [], t, Bottom, h);
    InorderNodesByStack(t, Bottom);
    freed := [];
    while |s| > 0
      invariant Stacked(s, stack, h)
      invariant freed + InorderNodesRest(stack) == InorderNodes(t)
      decreases |InorderNodesRest(stack)|
    {
      var node := s[|s| - 1];
      s := s[..|s| - 1];
      assert h[node] == Snap(node);
      InorderNodesStep(freed, stack);
      ghost var top := stack.top;
      stack := stack.below;
      if node.right != null {
        s, stack := LeftmostInorder(node.right, s, top.right, stack, h);
      }
      freed := freed + [node];
    }
  }
}
