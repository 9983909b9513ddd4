/**
 The `AVLTree` of btsrtavl.py:118-205 as the program has it: linked node
 objects with a cached `height`, which `_insert` and the rotations relink and
 update in place. The methods are the code as written; each is proved
 against the function of `AvlSpec` that models it. A method that would raise
 `AttributeError` in the program returns `ok == false` instead, and its
 caller returns at once, as the exception would propagate.
 */
module Avl {
  import opened Trees
  import Spec = AvlSpec

  /** `AVLTree.Node` (btsrtavl.py:119-124). */
  class AvlNode {
    var value: int
    var leftChild: AvlNode?
    var rightChild: AvlNode?
    var height: nat
    ghost var Repr: set<AvlNode>
    ghost var Model: Spec.AvlTree

    /**
     The children own disjoint parts of `Repr`, and `Model` is the subtree
     they form, annotated with the cached heights.
     */
    ghost predicate Valid()
      reads this, Repr
      decreases Repr
    {
      && this in Repr
      && (leftChild != null ==>
            leftChild in Repr && leftChild.Repr <= Repr && this !in leftChild.Repr && leftChild.Valid())
      && (rightChild != null ==>
            rightChild in Repr && rightChild.Repr <= Repr && this !in rightChild.Repr && rightChild.Valid())
      && (leftChild != null && rightChild != null ==> leftChild.Repr !! rightChild.Repr)
      && Model == Node(ModelOf(leftChild), value, ModelOf(rightChild), height)
    }

    /** `Node(value)`: a leaf of height 1. */
    constructor (value: int)
      ensures Valid() && fresh(Repr) && Repr == {this}
      ensures Model == Node(Nil, value, Nil, 1)
    {
      this.value := value;
      leftChild := null;
      rightChild := null;
      height := 1;
      Repr := {this};
      Model := Node(Nil, value, Nil, 1);
    }
  }

  /** The subtree below a possibly absent node. */
  ghost function ModelOf(node: AvlNode?): Spec.AvlTree
    reads node
  {
    if node == null then Nil else node.Model
  }

  /** The nodes of the subtree below a possibly absent node, the node itself included. */
  ghost function ReprOf(node: AvlNode?): set<AvlNode>
    reads node
  {
    if node == null then {} else {node} + node.Repr
  }

  /** `AVLTree` (btsrtavl.py:118-205), holding the root. */
  class AVLTree {
    var root: AvlNode?

    /** The tree object and the nodes below its root. */
    ghost function Repr(): set<object>
      reads this, root
    {
      {this} + ReprOf(root)
    }

    /** The tree the nodes form, with their cached heights. */
    ghost function Model(): Spec.AvlTree
      reads this, root
    {
      ModelOf(root)
    }

    /**
     The root's subtree is valid and weakly ordered. Both hold after every
     `insert`, whether it completes or raises; balance and correct heights
     are not invariants of the program (see `Insert`).
     */
    ghost predicate Valid()
      reads this, Repr()
    {
      && (root != null ==> root.Valid())
      && WeaklyOrdered(Model())
    }

    /** An empty tree (btsrtavl.py:126-127). */
    constructor ()
      ensures Valid() && fresh(Repr()) && Model() == Nil
    {
      root := null;
    }

    /**
     `insert` (btsrtavl.py:129-130): re-link the root to what `_insert`
     returns. When `_insert` raises (`ok == false`) the root stays, with what
     the completed mutations left below it. On an AVL tree a value not yet
     stored always completes and keeps the tree AVL.
     */
    method Insert(value: int) returns (ok: bool)
      requires Valid()
      modifies Repr()
      ensures Valid() && fresh(Repr() - old(Repr()))
      ensures ok == Spec.InsertRec(old(Model()), value).Done?
      ensures Model() == Spec.InsertRec(old(Model()), value).tree
      ensures old(Spec.Avl(Model())) && value !in old(Keys(Model())) ==> ok && Spec.Avl(Model())
    {
      Spec.InsertOrdered(Model(), value);
      if Spec.Avl(Model()) && value !in Keys(Model()) {
        Spec.InsertBalanced(Model(), value);
      }
      var r;
      r, ok := InsertNode(root, value);
      if !ok {
        return;
      }
      root := r;
    }

    /**
     `_insert` (btsrtavl.py:132-162): insert below `node` and return the new
     subtree root. On a raise (`ok == false`), `node` keeps its place and
     holds what the mutations made before the error left behind.
     */
    method InsertNode(node: AvlNode?, value: int) returns (r: AvlNode?, ok: bool)
      requires node != null ==> node.Valid()
      modifies ReprOf(node)
      ensures ok == Spec.InsertRec(old(ModelOf(node)), value).Done?
      ensures ok ==> r != null && r.Valid() && fresh(ReprOf(r) - old(ReprOf(node)))
      ensures ok ==> r.Model == Spec.InsertRec(old(ModelOf(node)), value).tree
      ensures !ok ==> node != null && node.Valid() && fresh(node.Repr - old(ReprOf(node)))
      ensures !ok ==> node.Model == Spec.InsertRec(old(ModelOf(node)), value).tree
      decreases if node == null then {} else node.Repr, 1
    {
      if node == null {
        r := new AvlNode(value);
        ok := true;
        return;
      }
      if value < node.value {
        ok := InsertLeft(node, value);
      } else {
        ok := InsertRight(node, value);
      }
      if !ok {
        r := null;
        return;
      }
      r, ok := Rebalance(node, value);
    }

    /**
     The left branch of `_insert` (btsrtavl.py:135-136): insert into the left
     subtree and re-link it, or on a raise below (`ok == false`) leave the
     link as it was.
     */
    method InsertLeft(node: AvlNode, value: int) returns (ok: bool)
      requires node.Valid()
      modifies node.Repr
      ensures ok == Spec.InsertRec(old(ModelOf(node.leftChild)), value).Done?
      ensures node.Valid() && fresh(node.Repr - old(node.Repr))
      ensures node.Model == old(node.Model).(left := Spec.InsertRec(old(ModelOf(node.leftChild)), value).tree)
      decreases node.Repr, 0
    {
      ChildrenApart(node);
      ghost var right, rl, rr, R := ModelOf(node.rightChild), ReprOf(node.leftChild), ReprOf(node.rightChild), node.Repr;
      var l;
      l, ok := InsertNode(node.leftChild, value);
      if ok {
        node.leftChild := l;
      }
      Seal(node, ReprOf(node.leftChild), rr, node.leftChild.Model, right);
      assert node.Repr - R <= ReprOf(node.leftChild) - rl;
    }

    /** The right branch of `_insert` (btsrtavl.py:137-138): ties go right. */
    method InsertRight(node: AvlNode, value: int) returns (ok: bool)
      requires node.Valid()
      modifies node.Repr
      ensures ok == Spec.InsertRec(old(ModelOf(node.rightChild)), value).Done?
      ensures node.Valid() && fresh(node.Repr - old(node.Repr))
      ensures node.Model == old(node.Model).(right := Spec.InsertRec(old(ModelOf(node.rightChild)), value).tree)
      decreases node.Repr, 0
    {
      ChildrenApart(node);
      ghost var left, rl, rr, R := ModelOf(node.leftChild), ReprOf(node.leftChild), ReprOf(node.rightChild), node.Repr;
      var rt;
      rt, ok := InsertNode(node.rightChild, value);
      if ok {
        node.rightChild := rt;
      }
      Seal(node, rl, ReprOf(node.rightChild), left, node.rightChild.Model);
      assert node.Repr - R <= ReprOf(node.rightChild) - rr;
    }

    /**
     The rest of `_insert` (btsrtavl.py:140-162): recompute the node's height,
     then take the first of the four cases whose guard holds. Only the inner
     rotation of a double case can raise; the node then keeps its new height
     and its children.
     */
    method Rebalance(node: AvlNode, value: int) returns (r: AvlNode?, ok: bool)
      requires node.Valid()
      modifies node.Repr
      ensures ok == Spec.Rebalance(old(node.Model), value).Done?
      ensures ok ==> r != null && r.Valid() && r.Repr <= old(node.Repr)
      ensures ok ==> r.Model == Spec.Rebalance(old(node.Model), value).tree
      ensures !ok ==> node.Valid() && node.Repr <= old(node.Repr)
      ensures !ok ==> node.Model == Spec.Rebalance(old(node.Model), value).tree
    {
      ChildrenApart(node);
      UpdateHeight(node, ReprOf(node.leftChild), ReprOf(node.rightChild), ModelOf(node.leftChild), ModelOf(node.rightChild));
      var balance := GetBalance(node);
      if balance > 1 && value < node.leftChild.value {
        r := RotateRight(node);
        return r, true;
      }
      if balance < -1 && value > node.rightChild.value {
        r := RotateLeft(node);
        return r, true;
      }
      if balance > 1 && value > node.leftChild.value {
        ok := RelinkLeftRotated(node);
        if !ok {
          return null, false;
        }
        r := RotateRight(node);
        return r, true;
      }
      if balance < -1 && value < node.rightChild.value {
        ok := RelinkRightRotated(node);
        if !ok {
          return null, false;
        }
        r := RotateLeft(node);
        return r, true;
      }
      return node, true;
    }

    /**
     The inner rotation of the left-right case (btsrtavl.py:154): rotate the
     left child to the left and re-link the result as the left child, or
     raise (`ok == false`) without changing anything when the left child
     lacks a right child.
     */
    method RelinkLeftRotated(node: AvlNode) returns (ok: bool)
      requires node.Valid() && node.leftChild != null && node.Model.left.Node?
      modifies node, node.leftChild, node.leftChild.rightChild
      ensures ok == Spec.RotateLeft(old(node.Model.left)).Some?
      ensures node.Valid() && node.Repr <= old(node.Repr)
      ensures ok ==> node.Model == old(node.Model).(left := Spec.RotateLeft(old(node.Model.left)).value)
      ensures !ok ==> node.Model == old(node.Model)
    {
      ChildrenApart(node);
      ghost var rr, right := ReprOf(node.rightChild), ModelOf(node.rightChild);
      var l := RotateLeft(node.leftChild);
      if l == null {
        return false;
      }
      node.leftChild := l;
      Seal(node, ReprOf(l), rr, l.Model, right);
      return true;
    }

    /** The inner rotation of the right-left case (btsrtavl.py:159), the mirror image. */
    method RelinkRightRotated(node: AvlNode) returns (ok: bool)
      requires node.Valid() && node.rightChild != null && node.Model.right.Node?
      modifies node, node.rightChild, node.rightChild.leftChild
      ensures ok == Spec.RotateRight(old(node.Model.right)).Some?
      ensures node.Valid() && node.Repr <= old(node.Repr)
      ensures ok ==> node.Model == old(node.Model).(right := Spec.RotateRight(old(node.Model.right)).value)
      ensures !ok ==> node.Model == old(node.Model)
    {
      ChildrenApart(node);
      ghost var rl, left := ReprOf(node.leftChild), ModelOf(node.leftChild);
      var rt := RotateRight(node.rightChild);
      if rt == null {
        return false;
      }
      node.rightChild := rt;
      Seal(node, rl, ReprOf(rt), left, rt.Model);
      return true;
    }

    /** `_get_height` (btsrtavl.py:164-167): 0 for an absent node, else its cached height. */
    function GetHeight(node: AvlNode?): (h: nat)
      requires node != null ==> node.Valid()
      reads if node == null then {} else node.Repr
      ensures h == Spec.GetHeight(ModelOf(node))
    {
      if node == null then 0 else node.height
    }

    /** `_get_balance` (btsrtavl.py:169-172): left cached height minus right cached height. */
    function GetBalance(node: AvlNode?): (b: int)
      requires node != null ==> node.Valid()
      reads if node == null then {} else node.Repr
      ensures b == Spec.GetBalance(ModelOf(node))
    {
      if node == null then 0 else GetHeight(node.leftChild) - GetHeight(node.rightChild)
    }

    /**
     `_rotate_left` (btsrtavl.py:174-184). It raises at once (`y == null`)
     when the right child is absent; otherwise the subtree becomes the
     value-level rotation of the old one, over the same nodes, with the lower
     node's height recomputed first.
     */
    method RotateLeft(z: AvlNode) returns (y: AvlNode?)
      requires z.Valid()
      modifies z, z.rightChild
      ensures y == null <==> Spec.RotateLeft(old(z.Model)).None?
      ensures y == null ==> unchanged(z) && z.Valid()
      ensures y != null ==> y.Valid() && y.Repr <= old(z.Repr)
      ensures y != null ==> y.Model == Spec.RotateLeft(old(z.Model)).value
    {
      y := z.rightChild;
      if y == null {
        return;
      }
      ChildrenApart(z);
      ChildrenApart(y);
      ghost var A, B, D := z.leftChild, y.leftChild, y.rightChild;
      ghost var RA, RB, RD := ReprOf(A), ReprOf(B), ReprOf(D);
      ghost var a, b, d := ModelOf(A), ModelOf(B), ModelOf(D);
      var t2 := y.leftChild;
      y.leftChild := z;
      z.rightChild := t2;
      UpdateHeight(z, RA, RB, a, b);
      UpdateHeight(y, {z} + RA + RB, RD, z.Model, d);
    }

    /** `_rotate_right` (btsrtavl.py:186-196), the mirror image. */
    method RotateRight(y: AvlNode) returns (x: AvlNode?)
      requires y.Valid()
      modifies y, y.leftChild
      ensures x == null <==> Spec.RotateRight(old(y.Model)).None?
      ensures x == null ==> unchanged(y) && y.Valid()
      ensures x != null ==> x.Valid() && x.Repr <= old(y.Repr)
      ensures x != null ==> x.Model == Spec.RotateRight(old(y.Model)).value
    {
      x := y.leftChild;
      if x == null {
        return;
      }
      ChildrenApart(y);
      ChildrenApart(x);
      ghost var A, B, D := x.leftChild, x.rightChild, y.rightChild;
      ghost var RA, RB, RD := ReprOf(A), ReprOf(B), ReprOf(D);
      ghost var a, b, d := ModelOf(A), ModelOf(B), ModelOf(D);
      var t2 := x.rightChild;
      x.rightChild := y;
      y.leftChild := t2;
      UpdateHeight(y, RB, RD, b, d);
      UpdateHeight(x, RA, {y} + RB + RD, a, y.Model);
    }

    /** `search` (btsrtavl.py:198-199), as written: whether the tree is non-empty. */
    function Search(value: int): (found: bool)
      reads this, Repr()
      requires Valid()
      ensures found == Spec.SearchTree(Model(), value)
    {
      SearchTree(root, value)
    }

    /** `_search_tree` (btsrtavl.py:201-205), as written: it looks only at whether `node` is present. */
    function SearchTree(node: AvlNode?, value: int): (found: bool)
      requires node != null ==> node.Valid()
      reads if node == null then {} else node.Repr
      ensures found == Spec.SearchTree(ModelOf(node), value)
    {
      if node == null then false
      else true
    }

    /**
     `search` as the other two trees write it, the standard descent: it is
     true exactly when the value is stored.
     */
    function SearchCorrected(value: int): (found: bool)
      reads this, Repr()
      requires Valid()
      ensures found <==> value in Keys(Model())
    {
      SearchTreeCorrected(root, value)
    }

    /** The descent from `node`, comparing at each node. */
    function SearchTreeCorrected(node: AvlNode?, value: int): (found: bool)
      requires node != null ==> node.Valid()
      reads if node == null then {} else node.Repr
      ensures found == Find(ModelOf(node), value)
      decreases if node == null then {} else node.Repr
    {
      if node == null then false
      else if node.value == value then true
      else if value < node.value then SearchTreeCorrected(node.leftChild, value)
      else SearchTreeCorrected(node.rightChild, value)
    }

    /**
     The height update that btsrtavl.py:140, 181-182 and 193-194 repeat (one
     more than the larger cached height of the two children), on a node whose children are valid, disjoint and do not
     contain it, with footprints `rl`, `rr` and subtrees `ml`, `mr`. The node
     becomes valid, with the value-level recomputation as its subtree.
     */
    method UpdateHeight(n: AvlNode, ghost rl: set<AvlNode>, ghost rr: set<AvlNode>, ghost ml: Spec.AvlTree, ghost mr: Spec.AvlTree)
      requires n.leftChild != null ==> n.leftChild.Valid()
      requires n.rightChild != null ==> n.rightChild.Valid()
      requires ReprOf(n.leftChild) == rl && ReprOf(n.rightChild) == rr
      requires ModelOf(n.leftChild) == ml && ModelOf(n.rightChild) == mr
      requires n !in rl && n !in rr && rl !! rr
      modifies n
      ensures n.Valid()
      ensures n.Repr == {n} + rl + rr
      ensures n.Model == Spec.Fix(Node(ml, n.value, mr, old(n.height)))
      ensures n.value == old(n.value)
      ensures n.leftChild == old(n.leftChild) && n.rightChild == old(n.rightChild)
    {
      n.height := 1 + Max(GetHeight(n.leftChild), GetHeight(n.rightChild));
      Seal(n, rl, rr, ml, mr);
    }

    /** What `Valid` says about the footprints of a node's children. */
    lemma ChildrenApart(n: AvlNode)
      requires n.Valid()
      ensures n !in ReprOf(n.leftChild) && n !in ReprOf(n.rightChild)
      ensures ReprOf(n.leftChild) !! ReprOf(n.rightChild)
      ensures ReprOf(n.leftChild) <= n.Repr && ReprOf(n.rightChild) <= n.Repr
      ensures n.leftChild != null ==> n.leftChild.Valid()
      ensures n.rightChild != null ==> n.rightChild.Valid()
    {
    }

    /**
     Re-establish `Valid` at a node whose links or height have just changed,
     given valid, disjoint children that do not contain it, with footprints
     `rl`, `rr` and subtrees `ml`, `mr`.
     */
    ghost method Seal(n: AvlNode, rl: set<AvlNode>, rr: set<AvlNode>, ml: Spec.AvlTree, mr: Spec.AvlTree)
      requires n.leftChild != null ==> n.leftChild.Valid()
      requires n.rightChild != null ==> n.rightChild.Valid()
      requires ReprOf(n.leftChild) == rl && ReprOf(n.rightChild) == rr
      requires ModelOf(n.leftChild) == ml && ModelOf(n.rightChild) == mr
      requires n !in rl && n !in rr && rl !! rr
      modifies n
      ensures n.Valid()
      ensures n.Repr == {n} + rl + rr
      ensures n.Model == Node(ml, n.value, mr, n.height)
      ensures n.value == old(n.value) && n.height == old(n.height)
      ensures n.leftChild == old(n.leftChild) && n.rightChild == old(n.rightChild)
    {
      n.Repr := {n} + rl + rr;
      n.Model := Node(ml, n.value, mr, n.height);
    }
  }
}
