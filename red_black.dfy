/**
 The `RedBlackTree` of btsrtavl.py:44-115 as the program has it: linked,
 coloured node objects that `_insert` and the rotations relink in place. The
 methods are the code as written, swapped fix-up rotations included; each is
 proved against the function of `RedBlackSpec` that models it. A method that
 would raise `AttributeError` in the program returns `ok == false` instead,
 and its caller returns at once, as the exception would propagate.
 */
module RedBlack {
  import opened Trees
  import Spec = RedBlackSpec

  /** `RedBlackTree.Node` (btsrtavl.py:48-53). */
  class RbNode {
    var value: int
    var color: Spec.Color
    var leftChild: RbNode?
    var rightChild: RbNode?
    ghost var Repr: set<RbNode>
    ghost var Model: Spec.RBTree

    /** The children own disjoint parts of `Repr`, and `Model` is the coloured subtree they form. */
    ghost predicate Valid()
      reads this, Repr
      decreases Repr
    {
      && this in Repr
      && (leftChild != null ==>
            leftChild in Repr && leftChild.Repr <= Repr && this !in leftChild.Repr && leftChild.Valid())
      && (rightChild != null ==>
            rightChild in Repr && rightChild.Repr <= Repr && this !in rightChild.Repr && rightChild.Valid())
      && (leftChild != null && rightChild != null ==> leftChild.Repr !! rightChild.Repr)
      && Model == Node(ModelOf(leftChild), value, ModelOf(rightChild), color)
    }

    /** `Node(value)`: a leaf with the default colour, red. */
    constructor (value: int)
      ensures Valid() && fresh(Repr) && Repr == {this}
      ensures Model == Spec.NewNode(value)
    {
      this.value := value;
      color := Spec.Red;
      leftChild := null;
      rightChild := null;
      Repr := {this};
      Model := Spec.NewNode(value);
    }
  }

  /** The subtree below a possibly absent node. */
  ghost function ModelOf(node: RbNode?): Spec.RBTree
    reads node
  {
    if node == null then Nil else node.Model
  }

  /** The nodes of the subtree below a possibly absent node, the node itself included. */
  ghost function ReprOf(node: RbNode?): set<RbNode>
    reads node
  {
    if node == null then {} else {node} + node.Repr
  }

  /** `RedBlackTree` (btsrtavl.py:44-115), holding the root. */
  class RedBlackTree {
    var root: RbNode?

    /** The tree object and the nodes below its root. */
    ghost function Repr(): set<object>
      reads this, root
    {
      {this} + ReprOf(root)
    }

    /** The coloured tree the nodes form. */
    ghost function Model(): Spec.RBTree
      reads this, root
    {
      ModelOf(root)
    }

    /**
     The root's subtree is valid, strictly ordered and its root is black.
     Both hold after every `insert`, whether it completes or raises.
     */
    ghost predicate Valid()
      reads this, Repr()
    {
      && (root != null ==> root.Valid())
      && Spec.Ordered(Model())
      && Spec.RootBlack(Model())
    }

    /** An empty tree (btsrtavl.py:55-56). */
    constructor ()
      ensures Valid() && fresh(Repr()) && Model() == Nil
    {
      root := null;
    }

    /**
     `insert` (btsrtavl.py:58-60). When `_insert` completes, the root is
     re-linked and painted black; when it raises (`ok == false`), the root
     stays, with what the completed mutations left below it.
     */
    method Insert(value: int) returns (ok: bool)
      requires Valid()
      modifies Repr()
      ensures Valid() && fresh(Repr() - old(Repr()))
      ensures ok == Spec.Insert(old(Model()), value).Done?
      ensures Model() == Spec.Insert(old(Model()), value).tree
    {
      Spec.InsertKeeps(Model(), value);
      var r;
      r, ok := InsertNode(root, value);
      if !ok {
        return;
      }
      root := r;
      PaintBlack(root);
    }

    /** Paint a node black (btsrtavl.py:60), its links and subtrees untouched. */
    method PaintBlack(n: RbNode)
      requires n.Valid()
      modifies n
      ensures n.Valid() && n.Repr <= old(n.Repr) && n.Model == old(n.Model).(aug := Spec.Black)
    {
      ChildrenApart(n);
      n.color := Spec.Black;
      Seal(n, ReprOf(n.leftChild), ReprOf(n.rightChild), ModelOf(n.leftChild), ModelOf(n.rightChild));
    }

    /**
     `_insert` (btsrtavl.py:62-78): insert below `node` and return the new
     subtree root. On a raise (`ok == false`), `node` keeps its place and
     holds what the mutations made before the error left behind.
     */
    method InsertNode(node: RbNode?, value: int) returns (r: RbNode?, ok: bool)
      requires node != null ==> node.Valid()
      modifies ReprOf(node)
      ensures ok == Spec.InsertRec(old(ModelOf(node)), value).Done?
      ensures ok ==> r != null && r.Valid() && fresh(ReprOf(r) - old(ReprOf(node)))
      ensures ok ==> r.Model == Spec.InsertRec(old(ModelOf(node)), value).tree
      ensures !ok ==> node != null && node.Valid() && fresh(node.Repr - old(ReprOf(node)))
      ensures !ok ==> node.Model == Spec.InsertRec(old(ModelOf(node)), value).tree
      decreases if node == null then {} else node.Repr, 1
    {
      if node == null {
        r := new RbNode(value);
        ok := true;
        return;
      }
      ok := true;
      if value < node.value {
        ok := InsertLeft(node, value);
      } else if value > node.value {
        ok := InsertRight(node, value);
      }
      if !ok {
        r := null;
        return;
      }
      r, ok := FixUp(node);
    }

    /**
     The left branch of `_insert` (btsrtavl.py:66-67): insert into the left
     subtree and re-link it, or on a raise below (`ok == false`) leave the
     link as it was.
     */
    method InsertLeft(node: RbNode, value: int) returns (ok: bool)
      requires node.Valid() && value < node.value
      modifies node.Repr
      ensures ok == Spec.Descend(old(node.Model), value).Done?
      ensures node.Valid() && fresh(node.Repr - old(node.Repr))
      ensures node.Model == Spec.Descend(old(node.Model), value).tree
      decreases node.Repr, 0
    {
      ChildrenApart(node);
      ghost var right, rl, rr, R := ModelOf(node.rightChild), ReprOf(node.leftChild), ReprOf(node.rightChild), node.Repr;
      assert node.Model == Node(ModelOf(node.leftChild), node.value, right, node.color);
      var l;
      l, ok := InsertNode(node.leftChild, value);
      if ok {
        node.leftChild := l;
      }
      Seal(node, ReprOf(node.leftChild), rr, node.leftChild.Model, right);
      assert node.Repr - R <= ReprOf(node.leftChild) - rl;
    }

    /** The right branch of `_insert` (btsrtavl.py:68-69), the mirror image. */
    method InsertRight(node: RbNode, value: int) returns (ok: bool)
      requires node.Valid() && value > node.value
      modifies node.Repr
      ensures ok == Spec.Descend(old(node.Model), value).Done?
      ensures node.Valid() && fresh(node.Repr - old(node.Repr))
      ensures node.Model == Spec.Descend(old(node.Model), value).tree
      decreases node.Repr, 0
    {
      ChildrenApart(node);
      ghost var left, rl, rr, R := ModelOf(node.leftChild), ReprOf(node.leftChild), ReprOf(node.rightChild), node.Repr;
      assert node.Model == Node(left, node.value, ModelOf(node.rightChild), node.color);
      var rt;
      rt, ok := InsertNode(node.rightChild, value);
      if ok {
        node.rightChild := rt;
      }
      Seal(node, rl, ReprOf(node.rightChild), left, node.rightChild.Model);
      assert node.Repr - R <= ReprOf(node.rightChild) - rr;
    }

    /**
     The three fix-ups of `_insert` (btsrtavl.py:71-76), as written: the first
     calls `_rotate_right`, the second `_rotate_left`. A rotation that raises
     leaves `node` as it was.
     */
    method FixUp(node: RbNode) returns (r: RbNode?, ok: bool)
      requires node.Valid()
      modifies node.Repr
      ensures ok == Spec.FixUp(old(node.Model)).Done?
      ensures ok ==> r != null && r.Valid() && r.Repr <= old(node.Repr)
      ensures ok ==> r.Model == Spec.FixUp(old(node.Model)).tree
      ensures !ok ==> node.Valid() && node.Repr == old(node.Repr) && node.Model == old(node.Model)
    {
      var n := node;
      if IsRedColor(n.rightChild) && !IsRedColor(n.leftChild) {
        var x := RotateRight(n);
        if x == null {
          return null, false;
        }
        n := x;
      }
      if IsRedColor(n.leftChild) && IsRedColor(n.leftChild.leftChild) {
        var x := RotateLeft(n);
        if x == null {
          return null, false;
        }
        n := x;
      }
      if IsRedColor(n.leftChild) && IsRedColor(n.rightChild) {
        FlipColors(n);
      }
      return n, true;
    }

    /** `_is_red_color` (btsrtavl.py:80-81): an absent node is black. */
    function IsRedColor(node: RbNode?): (red: bool)
      requires node != null ==> node.Valid()
      reads if node == null then {} else node.Repr
      ensures red <==> Spec.IsRed(ModelOf(node))
    {
      node != null && node.color == Spec.Red
    }

    /**
     `_rotate_left` (btsrtavl.py:83-89). It raises at once (`x == null`) when
     the right child is absent; otherwise the subtree becomes the value-level
     rotation of the old one, over the same nodes.
     */
    method RotateLeft(node: RbNode) returns (x: RbNode?)
      requires node.Valid()
      modifies node, node.rightChild
      ensures x == null <==> Spec.RotateLeft(old(node.Model)).None?
      ensures x == null ==> unchanged(node) && node.Valid()
      ensures x != null ==> x.Valid() && x.Repr <= old(node.Repr)
      ensures x != null ==> x.Model == Spec.RotateLeft(old(node.Model)).value
    {
      ghost var a, k, c := ModelOf(node.leftChild), node.value, node.color;
      x := node.rightChild;
      if x == null {
        return;
      }
      ghost var b, xk, xc, d := ModelOf(x.leftChild), x.value, x.color, ModelOf(x.rightChild);
      ghost var A, B, D := node.leftChild, x.leftChild, x.rightChild;
      assert node.Model == Node(a, k, Node(b, xk, d, xc), c);
      ChildrenApart(node);
      ChildrenApart(x);
      ghost var RA, RB, RD := ReprOf(A), ReprOf(B), ReprOf(D);
      node.rightChild := x.leftChild;
      x.leftChild := node;
      x.color := node.color;
      node.color := Spec.Red;
      SealLeftRotated(x, node, RA, RB, RD, a, b, d);
    }

    /** `_rotate_right` (btsrtavl.py:91-97), the mirror image. */
    method RotateRight(node: RbNode) returns (x: RbNode?)
      requires node.Valid()
      modifies node, node.leftChild
      ensures x == null <==> Spec.RotateRight(old(node.Model)).None?
      ensures x == null ==> unchanged(node) && node.Valid()
      ensures x != null ==> x.Valid() && x.Repr <= old(node.Repr)
      ensures x != null ==> x.Model == Spec.RotateRight(old(node.Model)).value
    {
      ghost var d, k, c := ModelOf(node.rightChild), node.value, node.color;
      x := node.leftChild;
      if x == null {
        return;
      }
      ghost var a, xk, xc, b := ModelOf(x.leftChild), x.value, x.color, ModelOf(x.rightChild);
      ghost var A, B, D := x.leftChild, x.rightChild, node.rightChild;
      assert node.Model == Node(Node(a, xk, b, xc), k, d, c);
      ChildrenApart(node);
      ChildrenApart(x);
      ghost var RA, RB, RD := ReprOf(A), ReprOf(B), ReprOf(D);
      node.leftChild := x.rightChild;
      x.rightChild := node;
      x.color := node.color;
      node.color := Spec.Red;
      SealRightRotated(x, node, RA, RB, RD, a, b, d);
    }

    ghost method SealLeftRotated(x: RbNode, n: RbNode, ra: set<RbNode>, rb: set<RbNode>, rd: set<RbNode>,
                                 ma: Spec.RBTree, mb: Spec.RBTree, md: Spec.RBTree)
      requires x.leftChild == n && n != x
      requires n.leftChild != null ==> n.leftChild.Valid()
      requires n.rightChild != null ==> n.rightChild.Valid()
      requires x.rightChild != null ==> x.rightChild.Valid()
      requires ReprOf(n.leftChild) == ra && ReprOf(n.rightChild) == rb && ReprOf(x.rightChild) == rd
      requires ModelOf(n.leftChild) == ma && ModelOf(n.rightChild) == mb && ModelOf(x.rightChild) == md
      requires n !in ra && n !in rb && n !in rd && x !in ra && x !in rb && x !in rd
      requires ra !! rb && ra !! rd && rb !! rd
      modifies x, n
      ensures x.Valid()
      ensures x.Repr == {x, n} + ra + rb + rd
      ensures x.Model == Node(Node(ma, n.value, mb, n.color), x.value, md, x.color)
      ensures x.value == old(x.value) && x.color == old(x.color) && n.value == old(n.value) && n.color == old(n.color)
    {
      Seal(n, ra, rb, ma, mb);
      Seal(x, {n} + ra + rb, rd, Node(ma, n.value, mb, n.color), md);
    }

    ghost method SealRightRotated(x: RbNode, n: RbNode, ra: set<RbNode>, rb: set<RbNode>, rd: set<RbNode>,
                                  ma: Spec.RBTree, mb: Spec.RBTree, md: Spec.RBTree)
      requires x.rightChild == n && n != x
      requires x.leftChild != null ==> x.leftChild.Valid()
      requires n.leftChild != null ==> n.leftChild.Valid()
      requires n.rightChild != null ==> n.rightChild.Valid()
      requires ReprOf(x.leftChild) == ra && ReprOf(n.leftChild) == rb && ReprOf(n.rightChild) == rd
      requires ModelOf(x.leftChild) == ma && ModelOf(n.leftChild) == mb && ModelOf(n.rightChild) == md
      requires n !in ra && n !in rb && n !in rd && x !in ra && x !in rb && x !in rd
      requires ra !! rb && ra !! rd && rb !! rd
      modifies x, n
      ensures x.Valid()
      ensures x.Repr == {x, n} + ra + rb + rd
      ensures x.Model == Node(ma, x.value, Node(mb, n.value, md, n.color), x.color)
      ensures x.value == old(x.value) && x.color == old(x.color) && n.value == old(n.value) && n.color == old(n.color)
    {
      Seal(n, rb, rd, mb, md);
      Seal(x, ra, {n} + rb + rd, ma, Node(mb, n.value, md, n.color));
    }

    /** What `Valid` says about the footprints of a node's children. */
    lemma ChildrenApart(n: RbNode)
      requires n.Valid()
      ensures n !in ReprOf(n.leftChild) && n !in ReprOf(n.rightChild)
      ensures ReprOf(n.leftChild) !! ReprOf(n.rightChild)
      ensures ReprOf(n.leftChild) <= n.Repr && ReprOf(n.rightChild) <= n.Repr
      ensures n.leftChild != null ==> n.leftChild.Valid()
      ensures n.rightChild != null ==> n.rightChild.Valid()
    {
    }

    /**
     Re-establish `Valid` at a node whose links or colour have just changed,
     given valid, disjoint children that do not contain it, with footprints
     `rl`, `rr` and subtrees `ml`, `mr`.
     */
    ghost method Seal(n: RbNode, rl: set<RbNode>, rr: set<RbNode>, ml: Spec.RBTree, mr: Spec.RBTree)
      requires n.leftChild != null ==> n.leftChild.Valid()
      requires n.rightChild != null ==> n.rightChild.Valid()
      requires ReprOf(n.leftChild) == rl && ReprOf(n.rightChild) == rr
      requires ModelOf(n.leftChild) == ml && ModelOf(n.rightChild) == mr
      requires n !in rl && n !in rr && rl !! rr
      modifies n
      ensures n.Valid()
      ensures n.Repr == {n} + rl + rr
      ensures n.Model == Node(ml, n.value, mr, n.color)
      ensures n.value == old(n.value) && n.color == old(n.color)
      ensures n.leftChild == old(n.leftChild) && n.rightChild == old(n.rightChild)
    {
      n.Repr := {n} + rl + rr;
      n.Model := Node(ml, n.value, mr, n.color);
    }

    /**
     `_flip_colors` (btsrtavl.py:99-102): negate the colour of the node and of
     both children, relinking nothing.
     */
    method FlipColors(node: RbNode)
      requires node.Valid() && node.leftChild != null && node.rightChild != null
      requires node.Model.left.Node? && node.Model.right.Node?
      modifies node, node.leftChild, node.rightChild
      ensures node.Valid() && node.Repr == old(node.Repr)
      ensures node.Model == Spec.FlipColors(old(node.Model))
    {
      var l, r := node.leftChild, node.rightChild;
      node.color := Spec.Negate(node.color);
      l.color := Spec.Negate(l.color);
      r.color := Spec.Negate(r.color);
      l.Model := l.Model.(aug := l.color);
      r.Model := r.Model.(aug := r.color);
      node.Model := Node(l.Model, node.value, r.Model, node.color);
    }

    /** `search` (btsrtavl.py:104-105): whether the value is stored. */
    function Search(value: int): (found: bool)
      reads this, Repr()
      requires Valid()
      ensures found <==> value in Keys(Model())
    {
      Spec.SearchCorrect(Model(), value);
      SearchTree(root, value)
    }

    /** `_search_tree` (btsrtavl.py:107-115): the standard descent from `node`. */
    function SearchTree(node: RbNode?, value: int): (found: bool)
      requires node != null ==> node.Valid()
      reads if node == null then {} else node.Repr
      ensures found == Find(ModelOf(node), value)
      decreases if node == null then {} else node.Repr
    {
      if node == null then false
      else if node.value == value then true
      else if value < node.value then SearchTree(node.leftChild, value)
      else SearchTree(node.rightChild, value)
    }
  }
}
