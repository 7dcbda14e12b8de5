/**
 * The heap nodes of the binary search tree and the ghost picture that
 * describes a linked tree of them.
 */
module Trees {

  /** One heap node of the tree (the record bst_node_t). */
  class Node {
    var key: char
    var value: int
    var left: Node?
    var right: Node?

    /** A fresh leaf: the allocation of a node followed by the setting of its four fields. */
    constructor (key: char, value: int)
      ensures this.key == key && this.value == value && left == null && right == null
    {
      this.key, this.value, left, right := key, value, null, null;
    }
  }

  /**
   * A snapshot of a linked tree: every Branch names the heap node that stands
   * for it and records the key and value that node holds.
   */
  datatype Tree = Nil | Branch(left: Tree, node: Node, key: char, value: int, right: Tree)

  /** The pointer that refers to a tree: null for the empty tree. */
  function Root(t: Tree): Node? {
    if t.Nil? then null else t.node
  }

  ghost function Nodes(t: Tree): set<Node> {
    match t
    case Nil => {}
    case Branch(l, n, _, _, r) => Nodes(l) + {n} + Nodes(r)
  }

  function Size(t: Tree): nat {
    match t
    case Nil => 0
    case Branch(l, _, _, _, r) => Size(l) + 1 + Size(r)
  }

  ghost function Keys(t: Tree): set<char> {
    match t
    case Nil => {}
    case Branch(l, _, k, _, r) => Keys(l) + {k} + Keys(r)
  }

  /** The key-value store that the tree represents. */
  ghost function Contents(t: Tree): map<char, int> {
    match t
    case Nil => map[]
    case Branch(l, _, k, v, r) => (Contents(l) + Contents(r))[k := v]
  }

  /** The search-tree order: smaller keys on the left, greater keys on the right. */
  ghost predicate Ordered(t: Tree) {
    match t
    case Nil => true
    case Branch(l, _, k, _, r) =>
      (forall x | x in Keys(l) :: x < k) &&
      (forall x | x in Keys(r) :: k < x) &&
      Ordered(l) && Ordered(r)
  }

  /** No node is shared: the tree is a strict ownership tree without cycles. */
  ghost predicate Distinct(t: Tree) {
    match t
    case Nil => true
    case Branch(l, n, _, _, r) =>
      n !in Nodes(l) && n !in Nodes(r) && Nodes(l) !! Nodes(r) &&
      Distinct(l) && Distinct(r)
  }

  /** The four fields of one node, as they stand. */
  datatype Cell = Cell(key: char, value: int, left: Node?, right: Node?)

  /** A record of the fields of the nodes a tree owns. */
  type Heap = map<Node, Cell>

  function Snap(x: Node): Cell
    reads x
  {
    Cell(x.key, x.value, x.left, x.right)
  }

  /** The recorded fields are the fields the nodes hold in the heap. */
  ghost predicate Mirrors(h: Heap)
    reads h.Keys
  {
    forall x | x in h :: h[x] == Snap(x)
  }

  /** The recorded fields describe exactly the snapshot: every Branch's node holds its key, value and children. */
  ghost predicate Linked(t: Tree, h: Heap) {
    match t
    case Nil => true
    case Branch(l, n, k, v, r) =>
      n in h && h[n] == Cell(k, v, Root(l), Root(r)) && Linked(l, h) && Linked(r, h)
  }

  lemma {:induction false} ContentsKeys(t: Tree)
    ensures Contents(t).Keys == Keys(t)
  {
    match t
    case Nil =>
    case Branch(l, _, _, _, r) =>
      ContentsKeys(l);
      ContentsKeys(r);
  }

  /** In an ordered tree each key is stored once and looked up where it lies. */
  lemma {:induction false} ContentsOfBranch(t: Tree, x: char)
    requires t.Branch? && Ordered(t)
    ensures x in Contents(t) <==> x == t.key || x in Contents(t.left) || x in Contents(t.right)
    ensures x < t.key ==> (x in Contents(t) <==> x in Contents(t.left))
    ensures x < t.key && x in Contents(t) ==> Contents(t)[x] == Contents(t.left)[x]
    ensures t.key < x ==> (x in Contents(t) <==> x in Contents(t.right))
    ensures t.key < x && x in Contents(t) ==> Contents(t)[x] == Contents(t.right)[x]
  {
    ContentsKeys(t.left);
    ContentsKeys(t.right);
  }

  /** A distinct tree has as many nodes as branches. */
  lemma {:induction false} DistinctSize(t: Tree)
    requires Distinct(t)
    ensures |Nodes(t)| == Size(t)
  {
    match t
    case Nil =>
    case Branch(l, n, _, _, r) =>
      DistinctSize(l);
      DistinctSize(r);
      assert Nodes(l) * Nodes(r) == {};
      assert |Nodes(l) + Nodes(r)| == |Nodes(l)| + |Nodes(r)|;
  }

  // Map algebra for the store of a branch, (left + right)[key := value].

  lemma JoinUpdateLeft(a: map<char, int>, b: map<char, int>, k: char, v: int, x: char, y: int)
    requires x !in b && x != k
    ensures (a[x := y] + b)[k := v] == (a + b)[k := v][x := y]
  {
  }

  lemma JoinUpdateRight(a: map<char, int>, b: map<char, int>, k: char, v: int, x: char, y: int)
    requires x != k
    ensures (a + b[x := y])[k := v] == (a + b)[k := v][x := y]
  {
  }

  lemma JoinRemoveLeft(a: map<char, int>, b: map<char, int>, k: char, v: int, x: char)
    requires x !in b && x != k
    ensures ((a - {x}) + b)[k := v] == (a + b)[k := v] - {x}
  {
  }

  lemma JoinRemoveRight(a: map<char, int>, b: map<char, int>, k: char, v: int, x: char)
    requires x !in a && x != k
    ensures (a + (b - {x}))[k := v] == (a + b)[k := v] - {x}
  {
  }

  lemma RootDrop(a: map<char, int>, b: map<char, int>, k: char, v: int)
    requires k !in a && k !in b
    ensures (a + b)[k := v] - {k} == a + b
  {
  }

  lemma Promote(a: map<char, int>, b: map<char, int>, m: char, w: int)
    requires m in a && a[m] == w && m !in b
    ensures ((a - {m}) + b)[m := w] == a + b
  {
  }

  // Linkage depends only on the records of the tree's own nodes.

  lemma {:induction false} LinkedNodes(t: Tree, h: Heap)
    requires Linked(t, h)
    ensures Nodes(t) <= h.Keys
  {
    match t
    case Nil =>
    case Branch(l, _, _, _, r) =>
      LinkedNodes(l, h);
      LinkedNodes(r, h);
  }

  lemma {:induction false} LinkedSame(t: Tree, h: Heap, h': Heap)
    requires Linked(t, h)
    requires forall x | x in Nodes(t) && x in h :: x in h' && h'[x] == h[x]
    ensures Linked(t, h')
  {
    match t
    case Nil =>
    case Branch(l, _, _, _, r) =>
      LinkedSame(l, h, h');
      LinkedSame(r, h, h');
  }

  /** Changing or adding the record of a node outside the tree keeps it linked. */
  lemma LinkedUpdate(t: Tree, h: Heap, x: Node, c: Cell)
    requires Linked(t, h) && x !in Nodes(t)
    ensures Linked(t, h[x := c])
  {
    LinkedSame(t, h, h[x := c]);
  }

  /** Releasing one node and rewriting another, both outside the tree, keeps it linked. */
  lemma LinkedAway(t: Tree, h: Heap, gone: Node, x: Node, c: Cell)
    requires Linked(t, h) && gone !in Nodes(t) && x !in Nodes(t)
    ensures Linked(t, (h - {gone})[x := c])
  {
    LinkedSame(t, h, (h - {gone})[x := c]);
  }
}
