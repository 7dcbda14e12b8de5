/**
 * What search, insertion, promotion of the rightmost node and deletion do to
 * a tree, stated on the ghost picture of the tree, and what they preserve.
 */
module Updates {
  import opened Trees

  datatype Option<T> = None | Some(value: T)

  /** The value reached by the descent of search: left when the node's key is greater. */
  ghost function Find(t: Tree, key: char): Option<int> {
    match t
    case Nil => None
    case Branch(l, _, k, v, r) =>
      if k == key then Some(v)
      else if k > key then Find(l, key)
      else Find(r, key)
  }

  /** In an ordered tree the descent finds exactly what the store holds. */
  lemma {:induction false} FindIsLookup(t: Tree, key: char)
    requires Ordered(t)
    ensures Find(t, key) == if key in Contents(t) then Some(Contents(t)[key]) else None
  {
    match t
    case Nil =>
    case Branch(l, _, k, _, r) =>
      ContentsOfBranch(t, key);
      if k > key { FindIsLookup(l, key); }
      else if k < key { FindIsLookup(r, key); }
  }

  /**
   * Insertion along the same descent: the node holding the key takes the new
   * value, otherwise the node `leaf` becomes a leaf where the descent fell off.
   */
  ghost function Insert(t: Tree, key: char, value: int, leaf: Node): Tree {
    match t
    case Nil => Branch(Nil, leaf, key, value, Nil)
    case Branch(l, n, k, v, r) =>
      if k == key then Branch(l, n, k, value, r)
      else if k > key then Branch(Insert(l, key, value, leaf), n, k, v, r)
      else Branch(l, n, k, v, Insert(r, key, value, leaf))
  }

  /** Same nodes in the same places holding the same keys; values may differ. */
  ghost predicate SameShape(t: Tree, u: Tree) {
    match t
    case Nil => u.Nil?
    case Branch(l, n, k, _, r) =>
      u.Branch? && u.node == n && u.key == k && SameShape(l, u.left) && SameShape(r, u.right)
  }

  lemma {:induction false} SameShapeNodesKeys(t: Tree, u: Tree)
    requires SameShape(t, u)
    ensures Nodes(t) == Nodes(u) && Keys(t) == Keys(u) && Size(t) == Size(u)
  {
    match t
    case Nil =>
    case Branch(l, _, _, _, r) =>
      SameShapeNodesKeys(l, u.left);
      SameShapeNodesKeys(r, u.right);
  }

  lemma {:induction false} InsertKeys(t: Tree, key: char, value: int, leaf: Node)
    ensures Keys(Insert(t, key, value, leaf)) == Keys(t) + {key}
  {
    match t
    case Nil =>
    case Branch(l, _, k, _, r) =>
      if k > key { InsertKeys(l, key, value, leaf); }
      else if k < key { InsertKeys(r, key, value, leaf); }
  }

  /** Insertion keeps the search-tree order. */
  lemma {:induction false} InsertOrdered(t: Tree, key: char, value: int, leaf: Node)
    requires Ordered(t)
    ensures Ordered(Insert(t, key, value, leaf))
  {
    match t
    case Nil =>
    case Branch(l, n, k, v, r) =>
      if k > key {
        InsertOrdered(l, key, value, leaf);
        InsertKeys(l, key, value, leaf);
      } else if k < key {
        InsertOrdered(r, key, value, leaf);
        InsertKeys(r, key, value, leaf);
      }
  }

  /** Insertion stores key |-> value over the old contents and changes nothing else. */
  lemma {:induction false} InsertContents(t: Tree, key: char, value: int, leaf: Node)
    requires Ordered(t)
    ensures Contents(Insert(t, key, value, leaf)) == Contents(t)[key := value]
  {
    match t
    case Nil =>
    case Branch(l, n, k, v, r) =>
      if k > key {
        InsertContents(l, key, value, leaf);
        ContentsKeys(r);
        JoinUpdateLeft(Contents(l), Contents(r), k, v, key, value);
      } else if k < key {
        InsertContents(r, key, value, leaf);
        JoinUpdateRight(Contents(l), Contents(r), k, v, key, value);
      }
  }

  /**
   * A present key is overwritten in place: no node is added and none moves.
   * An absent key adds exactly the one node `leaf`.
   */
  lemma {:induction false} InsertNodes(t: Tree, key: char, value: int, leaf: Node)
    requires Ordered(t)
    ensures key in Keys(t) ==> SameShape(t, Insert(t, key, value, leaf))
    ensures key !in Keys(t) ==>
      Nodes(Insert(t, key, value, leaf)) == Nodes(t) + {leaf} &&
      Size(Insert(t, key, value, leaf)) == Size(t) + 1
  {
    match t
    case Nil =>
    case Branch(l, n, k, v, r) =>
      if k == key {
        SameShapeRefl(l);
        SameShapeRefl(r);
      } else if k > key {
        assert key in Keys(t) <==> key in Keys(l);
        InsertNodes(l, key, value, leaf);
        SameShapeRefl(r);
      } else {
        assert key in Keys(t) <==> key in Keys(r);
        InsertNodes(r, key, value, leaf);
        SameShapeRefl(l);
      }
  }

  lemma {:induction false} SameShapeRefl(t: Tree)
    ensures SameShape(t, t)
  {
    match t
    case Nil =>
    case Branch(l, _, _, _, r) =>
      SameShapeRefl(l);
      SameShapeRefl(r);
  }

  /** A node not yet in the tree keeps the tree free of sharing. */
  lemma {:induction false} InsertDistinct(t: Tree, key: char, value: int, leaf: Node)
    requires Distinct(t) && leaf !in Nodes(t)
    ensures Distinct(Insert(t, key, value, leaf))
    ensures Nodes(Insert(t, key, value, leaf)) <= Nodes(t) + {leaf}
  {
    match t
    case Nil =>
    case Branch(l, n, k, v, r) =>
      if k > key { InsertDistinct(l, key, value, leaf); }
      else if k < key { InsertDistinct(r, key, value, leaf); }
  }

  /** The rightmost branch: the one reached by following right links to the end. */
  ghost function Rightmost(t: Tree): (m: Tree)
    requires t.Branch?
    ensures m.Branch? && m.right.Nil?
  {
    if t.right.Nil? then t else Rightmost(t.right)
  }

  /** The tree without its rightmost branch, whose left subtree takes its place. */
  ghost function RemoveRightmost(t: Tree): Tree
    requires t.Branch?
  {
    if t.right.Nil? then t.left
    else Branch(t.left, t.node, t.key, t.value, RemoveRightmost(t.right))
  }

  /** The rightmost branch holds the greatest key; removing it keeps the order and the other keys. */
  lemma {:induction false} RightmostIsMax(t: Tree)
    requires t.Branch? && Ordered(t)
    ensures Rightmost(t).key in Keys(t)
    ensures forall x | x in Keys(t) :: x <= Rightmost(t).key
    ensures Keys(RemoveRightmost(t)) == Keys(t) - {Rightmost(t).key}
    ensures Ordered(RemoveRightmost(t))
    ensures Size(RemoveRightmost(t)) + 1 == Size(t)
  {
    if t.right.Branch? {
      RightmostIsMax(t.right);
    }
  }

  /** The rightmost branch's entry is stored in the tree and removal drops just that entry. */
  lemma {:induction false} RightmostContents(t: Tree)
    requires t.Branch? && Ordered(t)
    ensures Rightmost(t).key in Contents(t) && Contents(t)[Rightmost(t).key] == Rightmost(t).value
    ensures Contents(RemoveRightmost(t)) == Contents(t) - {Rightmost(t).key}
  {
    ContentsKeys(t.left);
    ContentsKeys(t.right);
    if t.right.Nil? {
      RootDrop(Contents(t.left), Contents(t.right), t.key, t.value);
      assert Contents(t.left) + Contents(t.right) == Contents(t.left);
    } else {
      RightmostContents(t.right);
      RightmostIsMax(t.right);
      JoinRemoveRight(Contents(t.left), Contents(t.right), t.key, t.value, Rightmost(t).key);
    }
  }

  /** Removing the rightmost branch unlinks exactly its node and nothing else. */
  lemma {:induction false} RemoveRightmostNodes(t: Tree)
    requires t.Branch? && Distinct(t)
    ensures Distinct(RemoveRightmost(t))
    ensures Rightmost(t).node in Nodes(t)
    ensures Nodes(RemoveRightmost(t)) == Nodes(t) - {Rightmost(t).node}
  {
    if t.right.Branch? {
      RemoveRightmostNodes(t.right);
    }
  }

  /**
   * Removal of the root branch, as delete does it: a leaf goes, a single child
   * moves up (the right one when it exists), and a node with two children keeps
   * its place and takes the entry of the rightmost branch of its left subtree.
   */
  ghost function RemoveRoot(t: Tree): Tree
    requires t.Branch?
  {
    if t.left.Nil? && t.right.Nil? then Nil
    else if t.left.Branch? && t.right.Branch? then
      var m := Rightmost(t.left);
      Branch(RemoveRightmost(t.left), t.node, m.key, m.value, t.right)
    else if t.right.Branch? then t.right
    else t.left
  }

  /** Deletion: the descent of search, then removal of the branch holding the key. */
  ghost function Delete(t: Tree, key: char): Tree {
    match t
    case Nil => Nil
    case Branch(l, n, k, v, r) =>
      if k == key then RemoveRoot(t)
      else if k > key then Branch(Delete(l, key), n, k, v, r)
      else Branch(l, n, k, v, Delete(r, key))
  }

  /**
   * The inputs for which the iterative deletion has defined behaviour: the
   * matched node is not the root unless it has two children (the parent
   * pointer is read before it is ever assigned), and a matched node with two
   * children has a left child that has a right child (the promotion starts one
   * step right of the left child and dereferences that step).
   */
  ghost predicate DeleteDefined(t: Tree, key: char) {
    PromotionDefined(t, key) &&
    (t.Branch? && t.key == key ==> t.left.Branch? && t.right.Branch?)
  }

  ghost predicate PromotionDefined(t: Tree, key: char) {
    match t
    case Nil => true
    case Branch(l, _, k, _, r) =>
      if k == key then (l.Branch? && r.Branch? ==> l.right.Branch?)
      else if k > key then PromotionDefined(l, key)
      else PromotionDefined(r, key)
  }

  lemma {:induction false} RemoveRootOrdered(t: Tree)
    requires t.Branch? && Ordered(t)
    ensures Ordered(RemoveRoot(t))
    ensures Keys(RemoveRoot(t)) == Keys(t) - {t.key}
    ensures Size(RemoveRoot(t)) + 1 == Size(t)
  {
    if t.left.Branch? && t.right.Branch? {
      RightmostIsMax(t.left);
    }
  }

  lemma {:induction false} RemoveRootContents(t: Tree)
    requires t.Branch? && Ordered(t)
    ensures Contents(RemoveRoot(t)) == Contents(t) - {t.key}
  {
    ContentsKeys(t.left);
    ContentsKeys(t.right);
    RootDrop(Contents(t.left), Contents(t.right), t.key, t.value);
    if t.left.Branch? && t.right.Branch? {
      var m := Rightmost(t.left);
      RightmostContents(t.left);
      RightmostIsMax(t.left);
      Promote(Contents(t.left), Contents(t.right), m.key, m.value);
    } else if t.right.Branch? {
      assert Contents(t.left) + Contents(t.right) == Contents(t.right);
    } else {
      assert Contents(t.left) + Contents(t.right) == Contents(t.left);
    }
  }

  /**
   * When a node with two children is deleted, the key that takes its place is
   * the greatest key of the tree that is smaller than the deleted one.
   */
  lemma PromotedIsPredecessor(t: Tree)
    requires t.Branch? && Ordered(t) && t.left.Branch? && t.right.Branch?
    ensures RemoveRoot(t).Branch? && RemoveRoot(t).node == t.node
    ensures RemoveRoot(t).key in Keys(t) && RemoveRoot(t).key < t.key
    ensures forall x | x in Keys(t) && x < t.key :: x <= RemoveRoot(t).key
  {
    RightmostIsMax(t.left);
  }

  /** Deletion removes exactly the key and keeps the search-tree order. */
  lemma {:induction false} DeleteOrdered(t: Tree, key: char)
    requires Ordered(t)
    ensures Ordered(Delete(t, key))
    ensures Keys(Delete(t, key)) == Keys(t) - {key}
    ensures Size(Delete(t, key)) == if key in Keys(t) then Size(t) - 1 else Size(t)
  {
    match t
    case Nil =>
    case Branch(l, n, k, v, r) =>
      if k == key {
        RemoveRootOrdered(t);
      } else if k > key {
        DeleteOrdered(l, key);
      } else {
        DeleteOrdered(r, key);
      }
  }

  /** Deletion drops the key from the store and keeps every other entry. */
  lemma {:induction false} DeleteContents(t: Tree, key: char)
    requires Ordered(t)
    ensures Contents(Delete(t, key)) == Contents(t) - {key}
  {
    match t
    case Nil =>
    case Branch(l, n, k, v, r) =>
      if k == key {
        RemoveRootContents(t);
      } else if k > key {
        DeleteContents(l, key);
        ContentsKeys(r);
        JoinRemoveLeft(Contents(l), Contents(r), k, v, key);
      } else {
        DeleteContents(r, key);
        ContentsKeys(l);
        JoinRemoveRight(Contents(l), Contents(r), k, v, key);
      }
  }

  /** Deleting an absent key changes nothing. */
  lemma {:induction false} DeleteAbsent(t: Tree, key: char)
    requires key !in Keys(t)
    ensures Delete(t, key) == t
  {
    match t
    case Nil =>
    case Branch(l, _, k, _, r) =>
      if k > key { DeleteAbsent(l, key); }
      else if k < key { DeleteAbsent(r, key); }
  }

  /** Deletion never introduces sharing and keeps only nodes that were there. */
  lemma {:induction false} DeleteDistinct(t: Tree, key: char)
    requires Distinct(t)
    ensures Distinct(Delete(t, key))
    ensures Nodes(Delete(t, key)) <= Nodes(t)
  {
    match t
    case Nil =>
    case Branch(l, n, k, v, r) =>
      if k == key {
        if l.Branch? && r.Branch? {
          RemoveRightmostNodes(l);
        }
      } else if k > key {
        DeleteDistinct(l, key);
      } else {
        DeleteDistinct(r, key);
      }
  }

  /** Where deletion is defined, the tree keeps its root node: the handle is never rewritten. */
  lemma DeleteKeepsRoot(t: Tree, key: char)
    requires DeleteDefined(t, key)
    ensures Root(Delete(t, key)) == Root(t)
  {
  }
  /**
   * As written, deletion leaves the one-entry tree without defined behaviour:
   * the matched node is the root, so its parent pointer is read before it
   * was ever assigned. The intended result is the empty tree.
   */
  lemma DeleteOnlyEntryUndefined(n: Node)
    ensures var t := Branch(Nil, n, 'a', 1, Nil);
      Ordered(t) && 'a' in Keys(t) && !DeleteDefined(t, 'a') &&
      Delete(t, 'a') == Nil && Contents(Delete(t, 'a')) == Contents(t) - {'a'}
  {
  }

  /**
   * As written, deleting a key whose node has two children and whose left
   * child has no right child dereferences the missing right child. The
   * intended result promotes the left child's entry.
   */
  lemma DeletePromotionUndefined(a: Node, b: Node, c: Node)
    ensures var t := Branch(Branch(Nil, a, 'a', 1, Nil), b, 'b', 2, Branch(Nil, c, 'c', 3, Nil));
      Ordered(t) && 'b' in Keys(t) && !DeleteDefined(t, 'b') &&
      Delete(t, 'b') == Branch(Nil, b, 'a', 1, Branch(Nil, c, 'c', 3, Nil)) &&
      Contents(Delete(t, 'b')) == Contents(t) - {'b'}
  {
    var left, right := Branch(Nil, a, 'a', 1, Nil), Branch(Nil, c, 'c', 3, Nil);
    Leaf(a, 'a', 1);
    Leaf(c, 'c', 3);
    var t := Branch(left, b, 'b', 2, right);
    assert Contents(t) == map['a' := 1, 'c' := 3, 'b' := 2];
    assert Delete(t, 'b') == Branch(Nil, b, 'a', 1, right);
    assert Contents(Delete(t, 'b')) == map['c' := 3, 'a' := 1];
    assert Contents(t) - {'b'} == map['a' := 1, 'c' := 3];
  }

  /** A branch without children holds exactly its own entry. */
  lemma Leaf(n: Node, k: char, v: int)
    ensures Keys(Branch(Nil, n, k, v, Nil)) == {k}
    ensures Contents(Branch(Nil, n, k, v, Nil)) == map[k := v]
    ensures Ordered(Branch(Nil, n, k, v, Nil))
  {
    assert Keys(Branch(Nil, n, k, v, Nil)) == {} + {k} + {};
  }
}
