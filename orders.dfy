/**
 * The three depth-first orders of a tree, as recursive definitions, and what
 * is still to be produced by each explicit-stack discipline once some nodes
 * sit on the stack.
 */
module Orders {
  import opened Trees

  /** What the node visitor receives: a node's key and value. */
  type Entry = (char, int)

  ghost function Preorder(t: Tree): seq<Entry> {
    match t
    case Nil => []
    case Branch(l, _, k, v, r) => [(k, v)] + Preorder(l) + Preorder(r)
  }

  ghost function Inorder(t: Tree): seq<Entry> {
    match t
    case Nil => []
    case Branch(l, _, k, v, r) => Inorder(l) + [(k, v)] + Inorder(r)
  }

  ghost function Postorder(t: Tree): seq<Entry> {
    match t
    case Nil => []
    case Branch(l, _, k, v, r) => Postorder(l) + Postorder(r) + [(k, v)]
  }

  /** The nodes themselves in the left-node-right order. */
  ghost function InorderNodes(t: Tree): seq<Node> {
    match t
    case Nil => []
    case Branch(l, n, _, _, r) => InorderNodes(l) + [n] + InorderNodes(r)
  }

  lemma {:induction false} InorderKeys(t: Tree)
    ensures |Inorder(t)| == Size(t)
    ensures forall i | 0 <= i < |Inorder(t)| :: Inorder(t)[i].0 in Keys(t)
  {
    match t
    case Nil =>
    case Branch(l, _, k, v, r) =>
      InorderKeys(l);
      InorderKeys(r);
      var s := Inorder(t);
      forall i | 0 <= i < |s| ensures s[i].0 in Keys(t) {
        if i < |Inorder(l)| {
          assert s[i] == Inorder(l)[i];
        } else if i > |Inorder(l)| {
          assert s[i] == Inorder(r)[i - |Inorder(l)| - 1];
        }
      }
  }

  /** In an ordered tree the inorder walk produces strictly ascending keys. */
  lemma {:induction false} InorderAscending(t: Tree)
    requires Ordered(t)
    ensures forall i, j | 0 <= i < j < |Inorder(t)| :: Inorder(t)[i].0 < Inorder(t)[j].0
  {
    match t
    case Nil =>
    case Branch(l, _, k, v, r) =>
      InorderAscending(l);
      InorderAscending(r);
      InorderKeys(l);
      InorderKeys(r);
      var s := Inorder(t);
      var a, b := Inorder(l), Inorder(r);
      forall i, j | 0 <= i < j < |s| ensures s[i].0 < s[j].0 {
        if j < |a| {
          assert s[i] == a[i] && s[j] == a[j];
        } else if i > |a| {
          assert s[i] == b[i - |a| - 1] && s[j] == b[j - |a| - 1];
        } else if i == |a| {
          assert s[j] == b[j - |a| - 1];
        } else if j == |a| {
          assert s[i] == a[i];
        } else {
          assert s[i] == a[i] && s[j] == b[j - |a| - 1];
        }
      }
  }

  /** The inorder walk of an ordered tree lists exactly the entries of its store. */
  lemma {:induction false} InorderIsContents(t: Tree)
    requires Ordered(t)
    ensures forall e | e in Inorder(t) :: e.0 in Contents(t) && Contents(t)[e.0] == e.1
    ensures forall x | x in Contents(t) :: (x, Contents(t)[x]) in Inorder(t)
  {
    match t
    case Nil =>
    case Branch(l, _, k, v, r) =>
      InorderIsContents(l);
      InorderIsContents(r);
      InorderKeys(l);
      InorderKeys(r);
      forall e | e in Inorder(t) ensures e.0 in Contents(t) && Contents(t)[e.0] == e.1 {
        ContentsOfBranch(t, e.0);
        if e in Inorder(l) {
          var i :| 0 <= i < |Inorder(l)| && Inorder(l)[i] == e;
        } else if e in Inorder(r) {
          var i :| 0 <= i < |Inorder(r)| && Inorder(r)[i] == e;
        }
      }
      forall x | x in Contents(t) ensures (x, Contents(t)[x]) in Inorder(t) {
        ContentsOfBranch(t, x);
      }
  }

  /** The three walks list the same entries, each as often: they differ only in order. */
  lemma {:induction false} WalksArePermutations(t: Tree)
    ensures multiset(Preorder(t)) == multiset(Inorder(t))
    ensures multiset(Postorder(t)) == multiset(Inorder(t))
  {
    match t
    case Nil =>
    case Branch(l, _, k, v, r) =>
      WalksArePermutations(l);
      WalksArePermutations(r);
  }

  /** In a tree without sharing the inorder list of nodes holds every node of the tree exactly once, and nothing else. */
  lemma {:induction false} InorderNodesExact(t: Tree)
    requires Distinct(t)
    ensures forall x :: multiset(InorderNodes(t))[x] == if x in Nodes(t) then 1 else 0
  {
    match t
    case Nil =>
    case Branch(l, n, _, _, r) =>
      InorderNodesExact(l);
      InorderNodesExact(r);
      var a, b := InorderNodes(l), InorderNodes(r);
      assert multiset(InorderNodes(t)) == multiset(a) + multiset{n} + multiset(b);
      assert n !in Nodes(l) && n !in Nodes(r) && Nodes(l) !! Nodes(r);
  }

  // The explicit stacks of the walks. The node stack itself is a sequence of
  // node pointers whose last element is the top; beside it the proofs keep a
  // ghost list of the branches those nodes stand for, top first.

  /** The ghost picture of a stack of branches: `top` sits above `below`. */
  datatype Frames<F> = Bottom | Above(below: Frames<F>, top: F)

  ghost function Depth<F>(f: Frames<F>): nat {
    match f
    case Bottom => 0
    case Above(b, _) => Depth(b) + 1
  }

  /** The stack after a leftmost walk of `t` has pushed its left spine, top first. */
  ghost function PushSpine(f: Frames<Tree>, t: Tree): (g: Frames<Tree>)
    ensures Depth(g) == Depth(f) + |SpineEntries(t)|
    decreases t
  {
    match t
    case Nil => f
    case Branch(l, _, _, _, _) => PushSpine(Above(f, t), l)
  }

  /** The same for postorder, whose frames carry the first-visit mark; the pushed ones are on their first visit. */
  ghost function PushMarkedSpine(f: Frames<(Tree, bool)>, t: Tree): Frames<(Tree, bool)>
    decreases t
  {
    match t
    case Nil => f
    case Branch(l, _, _, _, _) => PushMarkedSpine(Above(f, (t, true)), l)
  }

  /** The entries of the branches of the left spine, top first: what a visiting leftmost walk visits. */
  ghost function SpineEntries(t: Tree): seq<Entry> {
    match t
    case Nil => []
    case Branch(l, _, k, v, _) => [(k, v)] + SpineEntries(l)
  }

  /**
   * The node stack lists the nodes of the stacked branches, the top last,
   * and every stacked branch is linked in `h`.
   */
  ghost predicate Stacked(nodes: seq<Node>, f: Frames<Tree>, h: Heap) {
    match f
    case Bottom => nodes == []
    case Above(b, t) =>
      |nodes| > 0 && t.Branch? && t.node == nodes[|nodes| - 1] && Linked(t, h) &&
      Stacked(nodes[..|nodes| - 1], b, h)
  }

  /** For postorder, the stack of marks runs beside the node stack and holds each frame's mark. */
  ghost predicate MarkedStacked(nodes: seq<Node>, marks: seq<bool>, f: Frames<(Tree, bool)>, h: Heap) {
    match f
    case Bottom => nodes == [] && marks == []
    case Above(b, (t, first)) =>
      |nodes| > 0 && |marks| > 0 && t.Branch? && t.node == nodes[|nodes| - 1] && marks[|marks| - 1] == first &&
      Linked(t, h) && MarkedStacked(nodes[..|nodes| - 1], marks[..|marks| - 1], b, h)
  }

  /** Pushing a linked branch keeps the node stack and the ghost stack in step. */
  lemma StackedPush(nodes: seq<Node>, f: Frames<Tree>, h: Heap, t: Tree)
    requires Stacked(nodes, f, h) && t.Branch? && Linked(t, h)
    ensures Stacked(nodes + [t.node], Above(f, t), h)
  {
    assert (nodes + [t.node])[..|nodes|] == nodes;
  }

  /** The same for the two stacks of postorder, the new frame on its first visit. */
  lemma MarkedStackedPush(nodes: seq<Node>, marks: seq<bool>, f: Frames<(Tree, bool)>, h: Heap, t: Tree, first: bool)
    requires MarkedStacked(nodes, marks, f, h) && t.Branch? && Linked(t, h)
    ensures MarkedStacked(nodes + [t.node], marks + [first], Above(f, (t, first)), h)
  {
    assert (nodes + [t.node])[..|nodes|] == nodes;
    assert (marks + [first])[..|marks|] == marks;
  }

  // What is still to be produced once some branches sit on the stack.

  /** Preorder: a stacked branch has been visited; its right subtree is still to be walked. */
  ghost function PreorderRest(f: Frames<Tree>): seq<Entry> {
    match f
    case Bottom => []
    case Above(b, t) => (if t.Branch? then Preorder(t.right) else []) + PreorderRest(b)
  }

  /** Inorder: a stacked branch is still to be visited, and then its right subtree walked. */
  ghost function InorderRest(f: Frames<Tree>): seq<Entry> {
    match f
    case Bottom => []
    case Above(b, t) => (if t.Branch? then [(t.key, t.value)] + Inorder(t.right) else []) + InorderRest(b)
  }

  /** Disposal follows the inorder discipline, releasing nodes instead of visiting them. */
  ghost function InorderNodesRest(f: Frames<Tree>): seq<Node> {
    match f
    case Bottom => []
    case Above(b, t) => (if t.Branch? then [t.node] + InorderNodes(t.right) else []) + InorderNodesRest(b)
  }

  /**
   * Postorder: a stacked branch on its first visit still has its right
   * subtree to walk; after that only the branch itself is left to visit.
   */
  ghost function PostorderRest(f: Frames<(Tree, bool)>): seq<Entry> {
    match f
    case Bottom => []
    case Above(b, (t, first)) =>
      (if t.Branch? then (if first then Postorder(t.right) else []) + [(t.key, t.value)] else []) + PostorderRest(b)
  }

  /** Work left to the postorder walk: two steps per node not yet stacked or on its first visit, one for the others. */
  ghost function PostorderWork(f: Frames<(Tree, bool)>): nat {
    match f
    case Bottom => 0
    case Above(b, (t, first)) =>
      (if t.Branch? then (if first then 2 * Size(t.right) + 2 else 1) else 0) + PostorderWork(b)
  }

  /** Concatenation regrouped, for the steps below. */
  lemma Regroup<T>(a: seq<T>, b: seq<T>, c: seq<T>)
    ensures (a + b) + c == a + (b + c)
  {
  }

  /**
   * Visiting and stacking the left spine of `t` leaves the rest of the
   * preorder walk of `t` on the stack, ahead of what was there before.
   */
  lemma {:induction false} PreorderByStack(t: Tree, f: Frames<Tree>)
    ensures SpineEntries(t) + PreorderRest(PushSpine(f, t)) == Preorder(t) + PreorderRest(f)
  {
    match t
    case Nil =>
    case Branch(l, _, k, v, r) =>
      PreorderByStack(l, Above(f, t));
      var later := PreorderRest(PushSpine(f, t));
      // SpineEntries(l) + later == Preorder(l) + (Preorder(r) + PreorderRest(f))
      Regroup([(k, v)], SpineEntries(l), later);
      Regroup(Preorder(l), Preorder(r), PreorderRest(f));
      Regroup([(k, v)], Preorder(l) + Preorder(r), PreorderRest(f));
      Regroup([(k, v)], Preorder(l), Preorder(r));
  }

  /** Stacking the left spine of `t` puts the whole inorder walk of `t` ahead of the stack's rest. */
  lemma {:induction false} InorderByStack(t: Tree, f: Frames<Tree>)
    ensures InorderRest(PushSpine(f, t)) == Inorder(t) + InorderRest(f)
  {
    match t
    case Nil =>
    case Branch(l, _, k, v, r) =>
      InorderByStack(l, Above(f, t));
      // InorderRest(PushSpine(f, t)) == Inorder(l) + (([(k, v)] + Inorder(r)) + InorderRest(f))
      Regroup(Inorder(l), [(k, v)] + Inorder(r), InorderRest(f));
      Regroup(Inorder(l), [(k, v)], Inorder(r));
  }

  /** The same for the nodes released by disposal. */
  lemma {:induction false} InorderNodesByStack(t: Tree, f: Frames<Tree>)
    ensures InorderNodesRest(PushSpine(f, t)) == InorderNodes(t) + InorderNodesRest(f)
  {
    match t
    case Nil =>
    case Branch(l, n, _, _, r) =>
      InorderNodesByStack(l, Above(f, t));
      Regroup(InorderNodes(l), [n] + InorderNodes(r), InorderNodesRest(f));
      Regroup(InorderNodes(l), [n], InorderNodes(r));
  }

  /**
   * Stacking the left spine of `t`, each branch on its first visit, puts the
   * whole postorder walk of `t` ahead of the stack's rest and adds two steps
   * of work per node of `t`.
   */
  lemma {:induction false} PostorderByStack(t: Tree, f: Frames<(Tree, bool)>)
    ensures PostorderRest(PushMarkedSpine(f, t)) == Postorder(t) + PostorderRest(f)
    ensures PostorderWork(PushMarkedSpine(f, t)) == 2 * Size(t) + PostorderWork(f)
  {
    match t
    case Nil =>
    case Branch(l, _, k, v, r) =>
      PostorderByStack(l, Above(f, (t, true)));
      // PostorderRest(PushMarkedSpine(f, t)) == Postorder(l) + ((Postorder(r) + [(k, v)]) + PostorderRest(f))
      Regroup(Postorder(l), Postorder(r) + [(k, v)], PostorderRest(f));
      Regroup(Postorder(l), Postorder(r), [(k, v)]);
  }

  // One turn of each walk's main loop, after the output so far.

  /** Preorder: the top is popped and the left spine of its right subtree visited and stacked. */
  lemma PreorderStep(out: seq<Entry>, f: Frames<Tree>)
    requires f.Above? && f.top.Branch?
    ensures (out + SpineEntries(f.top.right)) + PreorderRest(PushSpine(f.below, f.top.right)) == out + PreorderRest(f)
    ensures |PreorderRest(PushSpine(f.below, f.top.right))| < |PreorderRest(f)| ||
            (f.top.right == Nil && PushSpine(f.below, f.top.right) == f.below)
  {
    var r := f.top.right;
    PreorderByStack(r, f.below);
    Regroup(out, SpineEntries(r), PreorderRest(PushSpine(f.below, r)));
  }

  /** Inorder: the top is popped and visited, and the left spine of its right subtree stacked. */
  lemma InorderStep(out: seq<Entry>, f: Frames<Tree>)
    requires f.Above? && f.top.Branch?
    ensures (out + [(f.top.key, f.top.value)]) + InorderRest(PushSpine(f.below, f.top.right)) == out + InorderRest(f)
  {
    var top := f.top;
    InorderByStack(top.right, f.below);
    Regroup([(top.key, top.value)], Inorder(top.right), InorderRest(f.below));
    Regroup(out, [(top.key, top.value)], InorderRest(PushSpine(f.below, top.right)));
  }

  /** Disposal: the top is popped and released once the left spine of its right subtree has taken its place. */
  lemma InorderNodesStep(freed: seq<Node>, f: Frames<Tree>)
    requires f.Above? && f.top.Branch?
    ensures (freed + [f.top.node]) + InorderNodesRest(PushSpine(f.below, f.top.right)) == freed + InorderNodesRest(f)
  {
    var top := f.top;
    InorderNodesByStack(top.right, f.below);
    Regroup([top.node], InorderNodes(top.right), InorderNodesRest(f.below));
    Regroup(freed, [top.node], InorderNodesRest(PushSpine(f.below, top.right)));
  }

  /**
   * Postorder, first visit of the top: it is marked and the left spine of its
   * right subtree stacked above it; the pending output is unchanged and the
   * work left shrinks.
   */
  lemma PostorderDescend(f: Frames<(Tree, bool)>)
    requires f.Above? && f.top.0.Branch? && f.top.1
    ensures var g := PushMarkedSpine(Above(f.below, (f.top.0, false)), f.top.0.right);
      PostorderRest(g) == PostorderRest(f) && PostorderWork(g) < PostorderWork(f)
  {
    PostorderByStack(f.top.0.right, Above(f.below, (f.top.0, false)));
  }

  /** Postorder, second visit of the top: it is popped and visited; the work left shrinks. */
  lemma PostorderVisit(out: seq<Entry>, f: Frames<(Tree, bool)>)
    requires f.Above? && f.top.0.Branch? && !f.top.1
    ensures (out + [(f.top.0.key, f.top.0.value)]) + PostorderRest(f.below) == out + PostorderRest(f)
    ensures PostorderWork(f.below) < PostorderWork(f)
  {
    Regroup(out, [(f.top.0.key, f.top.0.value)], PostorderRest(f.below));
  }
}
