/**
 * A path from the subtree a descent has reached back up to the root: the
 * frames of the nodes passed on the way, innermost first, each recording which
 * child the descent took and the subtree it left beside. Plugging the reached
 * subtree back into the path rebuilds the whole tree.
 */
module Zipper {
  import opened Trees

  datatype Dir = Left | Right

  datatype Frame = Frame(dir: Dir, node: Node, key: char, value: int, sibling: Tree)

  /** `Top` is the root's position; `Down(f, up)` is one step below the path `up`. */
  datatype Path = Top | Down(frame: Frame, up: Path)

  /** The branch of a frame's node, with `t` as the child the descent took. */
  ghost function Attach(f: Frame, t: Tree): Tree {
    if f.dir == Left then Branch(t, f.node, f.key, f.value, f.sibling)
    else Branch(f.sibling, f.node, f.key, f.value, t)
  }

  /** The whole tree: `t` put back in place at the end of the path. */
  ghost function Plug(p: Path, t: Tree): Tree {
    match p
    case Top => t
    case Down(f, up) => Plug(up, Attach(f, t))
  }

  /** The nodes of the path and of the subtrees it left beside. */
  ghost function PathNodes(p: Path): set<Node> {
    match p
    case Top => {}
    case Down(f, up) => PathNodes(up) + {f.node} + Nodes(f.sibling)
  }

  /** The record of a frame's node, whose child on the path is `child`. */
  ghost function FrameCell(f: Frame, child: Node?): Cell {
    if f.dir == Left then Cell(f.key, f.value, child, Root(f.sibling))
    else Cell(f.key, f.value, Root(f.sibling), child)
  }

  /** The records agree with the whole path, whose innermost node points to `child`. */
  ghost predicate PathLinked(p: Path, child: Node?, h: Heap) {
    match p
    case Top => true
    case Down(f, up) =>
      f.node in h && h[f.node] == FrameCell(f, child) && Linked(f.sibling, h) && PathLinked(up, f.node, h)
  }

  /** The reference held by the handle: the root node if the path is not empty. */
  ghost function TopNode(p: Path, here: Node?): Node? {
    match p
    case Top => here
    case Down(f, up) => TopNode(up, f.node)
  }

  lemma {:induction false} PlugNodes(p: Path, t: Tree)
    ensures Nodes(Plug(p, t)) == PathNodes(p) + Nodes(t)
  {
    match p
    case Top =>
    case Down(f, up) => PlugNodes(up, Attach(f, t));
  }

  /** A tree without sharing shares no node between the path and the reached subtree. */
  lemma {:induction false} PlugDistinct(p: Path, t: Tree)
    requires Distinct(Plug(p, t))
    ensures Distinct(t) && PathNodes(p) !! Nodes(t)
  {
    match p
    case Top =>
    case Down(f, up) => PlugDistinct(up, Attach(f, t));
  }

  /** The records agree with the whole tree iff they agree with the path and with the reached subtree. */
  lemma {:induction false} PlugLinked(p: Path, t: Tree, h: Heap)
    ensures Linked(Plug(p, t), h) <==> PathLinked(p, Root(t), h) && Linked(t, h)
  {
    match p
    case Top =>
    case Down(f, up) => PlugLinked(up, Attach(f, t), h);
  }

  /** Whatever subtree is plugged in, the root of the whole tree is the path's top node. */
  lemma {:induction false} PlugRoot(p: Path, t: Tree)
    ensures Root(Plug(p, t)) == TopNode(p, Root(t))
  {
    match p
    case Top =>
    case Down(f, up) => PlugRoot(up, Attach(f, t));
  }

  lemma {:induction false} PathLinkedSame(p: Path, child: Node?, h: Heap, h': Heap)
    requires PathLinked(p, child, h)
    requires forall x | x in PathNodes(p) && x in h :: x in h' && h'[x] == h[x]
    ensures PathLinked(p, child, h')
  {
    match p
    case Top =>
    case Down(f, up) =>
      LinkedSame(f.sibling, h, h');
      PathLinkedSame(up, f.node, h, h');
  }

  /** Changing or adding the record of a node off the path keeps the path linked. */
  lemma PathLinkedUpdate(p: Path, child: Node?, h: Heap, x: Node, c: Cell)
    requires PathLinked(p, child, h) && x !in PathNodes(p)
    ensures PathLinked(p, child, h[x := c])
  {
    PathLinkedSame(p, child, h, h[x := c]);
  }

  /** Releasing one node and rewriting another, both off the path, keeps the path linked. */
  lemma PathLinkedAway(p: Path, child: Node?, h: Heap, gone: Node, x: Node, c: Cell)
    requires PathLinked(p, child, h) && gone !in PathNodes(p) && x !in PathNodes(p)
    ensures PathLinked(p, child, (h - {gone})[x := c])
  {
    PathLinkedSame(p, child, h, (h - {gone})[x := c]);
  }
}
