/**
 The unbalanced `BinarySearchTree` of btsrtavl.py:1-41 as the program has it:
 linked node objects whose child fields `insert` updates in place. Each node
 carries two ghost fields, `Repr` (the nodes of its subtree) and `Model` (the
 subtree as a value), and the methods are proved against the functions of
 `BstSpec`.
 */
module Bst {
  import opened Trees
  import BstSpec

  /** `TreeNode` (btsrtavl.py:1-5). */
  class TreeNode {
    var value: int
    var leftChild: TreeNode?
    var rightChild: TreeNode?
    ghost var Repr: set<object>
    ghost var Model: BstSpec.Bst

    /** The children own disjoint parts of `Repr`, and `Model` is the subtree they form. */
    ghost predicate Valid()
      reads this, Repr
      decreases Repr
    {
      && this in Repr
      && (leftChild != null ==>
            leftChild in Repr && leftChild.Repr <= Repr && this !in leftChild.Repr && leftChild.Valid())
      && (rightChild != null ==>
            rightChild in Repr && rightChild.Repr <= Repr && this !in rightChild.Repr && rightChild.Valid())
      && (leftChild != null && rightChild != null ==> leftChild.Repr !! rightChild.Repr)
      && Model == Node(ModelOf(leftChild), value, ModelOf(rightChild), ())
    }

    /** A new node has no children. */
    constructor (value: int)
      ensures Valid() && fresh(Repr) && Repr == {this}
      ensures this.value == value && leftChild == null && rightChild == null
      ensures Model == BstSpec.Leaf(value)
    {
      this.value := value;
      leftChild := null;
      rightChild := null;
      Repr := {this};
      Model := BstSpec.Leaf(value);
    }
  }

  /** The subtree below a possibly absent node. */
  ghost function ModelOf(node: TreeNode?): BstSpec.Bst
    reads node
  {
    if node == null then Nil else node.Model
  }

  /** `BinarySearchTree` (btsrtavl.py:8-41), holding the root. */
  class BinarySearchTree {
    var root: TreeNode?
    ghost var Repr: set<object>
    ghost var Model: BstSpec.Bst

    /** The root's subtree is the tree, and it is always in search-tree order. */
    ghost predicate Valid()
      reads this, Repr
    {
      && this in Repr
      && (root != null ==> root in Repr && root.Repr <= Repr && this !in root.Repr && root.Valid())
      && Model == ModelOf(root)
      && BstSpec.Ordered(Model)
    }

    /** An empty tree (btsrtavl.py:9-10). */
    constructor ()
      ensures Valid() && fresh(Repr) && Model == Nil
    {
      root := null;
      Repr := {this};
      Model := Nil;
    }

    /**
     `insert` (btsrtavl.py:12-16): the tree becomes the value-level insertion
     of the value, so it holds one more copy of it, and it stays ordered.
     */
    method Insert(value: int)
      requires Valid()
      modifies Repr
      ensures Valid() && fresh(Repr - old(Repr))
      ensures Model == BstSpec.Insert(old(Model), value)
    {
      if root == null {
        root := new TreeNode(value);
      } else {
        InsertRecursive(root, value);
      }
      Repr := Repr + root.Repr;
      BstSpec.InsertOrdered(Model, value);
      Model := root.Model;
    }

    /**
     `_insert_recursive` (btsrtavl.py:18-28): walk down from `node` and link a
     new node at the first absent child on the value's side.
     */
    method InsertRecursive(node: TreeNode, value: int)
      requires node.Valid()
      modifies node.Repr
      ensures node.Valid() && fresh(node.Repr - old(node.Repr))
      ensures node.Model == BstSpec.Insert(old(node.Model), value)
      decreases node.Repr
    {
      ghost var left, right := ModelOf(node.leftChild), ModelOf(node.rightChild);
      ghost var k := node.value;
      assert node.Model == Node(left, k, right, ());
      if value < node.value {
        if node.leftChild == null {
          node.leftChild := new TreeNode(value);
        } else {
          InsertRecursive(node.leftChild, value);
        }
        node.Repr := node.Repr + node.leftChild.Repr;
        node.Model := Node(node.leftChild.Model, node.value, right, ());
        assert node.leftChild.Model == BstSpec.Insert(left, value);
        assert BstSpec.Insert(Node(left, k, right, ()), value) == Node(BstSpec.Insert(left, value), k, right, ());
      } else {
        if node.rightChild == null {
          node.rightChild := new TreeNode(value);
        } else {
          InsertRecursive(node.rightChild, value);
        }
        node.Repr := node.Repr + node.rightChild.Repr;
        node.Model := Node(left, node.value, node.rightChild.Model, ());
        assert node.rightChild.Model == BstSpec.Insert(right, value);
        assert BstSpec.Insert(Node(left, k, right, ()), value) == Node(left, k, BstSpec.Insert(right, value), ());
      }
    }

    /** `search` (btsrtavl.py:30-31): whether the value is stored. */
    function Search(value: int): (found: bool)
      reads this, Repr
      requires Valid()
      ensures found <==> value in Elems(Model)
    {
      BstSpec.SearchCorrect(Model, value);
      SearchTree(root, value)
    }

    /** `_search_tree` (btsrtavl.py:33-41): the standard descent from `node`. */
    function SearchTree(node: TreeNode?, value: int): (found: bool)
      requires node != null ==> node.Valid()
      reads if node == null then {} else node.Repr
      ensures found == Find(ModelOf(node), value)
      decreases if node == null then {} else node.Repr
    {
      if node == null then false
      else if node.value == value then true
      else if value < node.value then SearchTree(node.leftChild, value)
      else SearchTree(node.rightChild, value)
    }
  }
}
