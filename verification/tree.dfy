/**
 * The generic binary tree: a value with an optional left and an optional right
 * child. Children are owned exclusively, so the structure is a finite tree.
 */
module Tree {
  import opened Wrappers

  datatype BinaryTree<T> = BinaryTree(value: T, left: Option<BinaryTree<T>>, right: Option<BinaryTree<T>>)
  {
    /**
     * The left child, if there is one; a missing child is None, not an error.
     */
    function Left(): (r: Option<BinaryTree<T>>)
      ensures r.Some? <==> left.Some?
    {
      left
    }

    /** The right child, if there is one; a missing child is None, not an error. */
    function Right(): (r: Option<BinaryTree<T>>)
      ensures r.Some? <==> right.Some?
    {
      right
    }

    /**
     * The node after a write through the mutable reference to the left child:
     * only the left child changes. With no left child there is no reference to
     * write through, and the node stays as it was.
     */
    function WriteLeft(sub: BinaryTree<T>): (r: BinaryTree<T>)
      ensures r.value == value && r.Right() == Right()
      ensures r.Left().Some? <==> Left().Some?
      ensures Left().Some? ==> r.Left() == Some(sub)
    {
      if left.Some? then BinaryTree(value, Some(sub), right) else this
    }

    /** The node after a write through the mutable reference to the right child. */
    function WriteRight(sub: BinaryTree<T>): (r: BinaryTree<T>)
      ensures r.value == value && r.Left() == Left()
      ensures r.Right().Some? <==> Right().Some?
      ensures Right().Some? ==> r.Right() == Some(sub)
    {
      if right.Some? then BinaryTree(value, left, Some(sub)) else this
    }
  }

  /** Builds a node from a value and the two optional subtrees it takes ownership of. */
  function New<T>(value: T, left: Option<BinaryTree<T>>, right: Option<BinaryTree<T>>): (t: BinaryTree<T>)
    ensures t.value == value
    ensures t.Left() == left && t.Right() == right
  {
    BinaryTree(value, left, right)
  }

  /** Every node is what New builds from its value and children. */
  lemma NewOfParts<T>(t: BinaryTree<T>)
    ensures New(t.value, t.Left(), t.Right()) == t
  {
  }

  /** Writing back the child just read leaves the node as it was. */
  lemma WriteBackUnchanged<T>(t: BinaryTree<T>)
    ensures t.Left().Some? ==> t.WriteLeft(t.Left().value) == t
    ensures t.Right().Some? ==> t.WriteRight(t.Right().value) == t
  {
  }

  /** All subtrees of `t` (every node with what hangs below it), in pre-order, left before right. */
  function Subtrees<T>(t: BinaryTree<T>): (r: seq<BinaryTree<T>>)
    ensures |r| >= 1 && r[0] == t
  {
    [t] + ChildSubtrees(t.left) + ChildSubtrees(t.right)
  }

  /**
   * In pre-order the left child comes right after its parent, and the right
   * child right after the parent and every node of the left subtree.
   */
  lemma ChildrenInPreOrder<T>(t: BinaryTree<T>)
    ensures t.Left().Some? ==> |Subtrees(t)| > 1 && Subtrees(t)[1] == t.Left().value
    ensures t.Right().Some? ==>
              var k := 1 + |ChildSubtrees(t.left)|;
              k < |Subtrees(t)| && Subtrees(t)[k] == t.Right().value
  {
  }

  /** The subtrees of an optional child: none when the child is missing. */
  function ChildSubtrees<T>(c: Option<BinaryTree<T>>): seq<BinaryTree<T>> {
    match c
    case None => []
    case Some(s) => Subtrees(s)
  }
}
