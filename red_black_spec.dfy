/**
 The `RedBlackTree` of btsrtavl.py:44-115, as values: the fix-ups exactly as
 the code writes them, the insertion built from them, and what they keep.

 The code means to be a left-leaning red-black tree, but its first two fix-ups
 call the opposite rotations: a red right child triggers `_rotate_right`,
 which reads the LEFT child, and a red left-left pair triggers `_rotate_left`,
 which reads the RIGHT child. Either child may be absent, and then the step
 raises. Insertion is therefore partial, and that is modelled with `Outcome`.
 */
module RedBlackSpec {
  import opened Trees

  /** `RED = True` and `BLACK = False` (btsrtavl.py:45-46). */
  datatype Color = Red | Black

  type RBTree = Tree<Color>

  /** `not color`. */
  function Negate(c: Color): (r: Color)
    ensures r != c
  {
    if c == Red then Black else Red
  }

  /** `_is_red_color` (btsrtavl.py:80-81): an absent node is not red. */
  predicate IsRed(t: RBTree)
  {
    t.Node? && t.aug == Red
  }

  /**
   The order this tree keeps: `_insert` descends only on a strict `<` or
   `>`, so keys are strictly below on the left and strictly above on the right.
   */
  predicate Ordered(t: RBTree)
  {
    match t
    case Nil => true
    case Node(l, k, r, _) => AllBelow(l, k) && AllAbove(r, k) && Ordered(l) && Ordered(r)
  }

  /** The root of a tree handle is black (or the tree is empty). */
  predicate RootBlack(t: RBTree)
  {
    t.Nil? || t.aug == Black
  }

  /** `Node(value)` with its default colour (btsrtavl.py:49-53): a red leaf. */
  function NewNode(value: int): (r: RBTree)
    ensures IsRed(r) && r.left.Nil? && r.right.Nil?
    ensures Keys(r) == {value} && Ordered(r)
  {
    Node(Nil, value, Nil, Red)
  }

  /**
   `_rotate_left` (btsrtavl.py:83-89). Its first field read, of the left child
   of the right child, raises when the right child is absent, and the
   function returns `None` for that raise. Otherwise the right child becomes the subtree root; it takes the
   old root's colour, and the old root, now its left child, becomes red.
   The in-order sequence, the keys and the order are kept.
   */
  function RotateLeft(t: RBTree): (r: Option<RBTree>)
    requires t.Node?
    ensures r.None? <==> t.right.Nil?
    ensures r.Some? ==>
      && InOrder(r.value) == InOrder(t)
      && Keys(r.value) == Keys(t) && Size(r.value) == Size(t)
      && (Ordered(t) ==> Ordered(r.value))
      && r.value.Node? && r.value.key == t.right.key && r.value.aug == t.aug
      && r.value.right == t.right.right
      && r.value.left.Node? && r.value.left.key == t.key && r.value.left.aug == Red
  {
    match t.right
    case Nil => None
    case Node(xl, xk, xr, _) =>
      var r := Node(Node(t.left, t.key, xl, Red), xk, xr, t.aug);
      assert Ordered(t) ==> Ordered(r) by {
        if Ordered(t) { RotatedLeftOrdered(t.left, t.key, xl, xk, xr, t.right.aug, Red, t.aug); }
      }
      Some(r)
  }

  /**
   `_rotate_right` (btsrtavl.py:91-97), the mirror image. It raises at
   `x.right_child` (btsrtavl.py:93) when the left child is absent.
   */
  function RotateRight(t: RBTree): (r: Option<RBTree>)
    requires t.Node?
    ensures r.None? <==> t.left.Nil?
    ensures r.Some? ==>
      && InOrder(r.value) == InOrder(t)
      && Keys(r.value) == Keys(t) && Size(r.value) == Size(t)
      && (Ordered(t) ==> Ordered(r.value))
      && r.value.Node? && r.value.key == t.left.key && r.value.aug == t.aug
      && r.value.left == t.left.left
      && r.value.right.Node? && r.value.right.key == t.key && r.value.right.aug == Red
  {
    match t.left
    case Nil => None
    case Node(xl, xk, xr, _) =>
      var r := Node(xl, xk, Node(xr, t.key, t.right, Red), t.aug);
      assert Ordered(t) ==> Ordered(r) by {
        if Ordered(t) { RotatedRightOrdered(xl, xk, xr, t.key, t.right, t.left.aug, Red, t.aug); }
      }
      Some(r)
  }

  /** A left rotation keeps the strict order, whatever the colours. */
  lemma RotatedLeftOrdered(a: RBTree, k: int, b: RBTree, xk: int, c: RBTree, c0: Color, c1: Color, c2: Color)
    requires Ordered(Node(a, k, Node(b, xk, c, c0), c2))
    ensures Ordered(Node(Node(a, k, b, c1), xk, c, c2))
  {
    var x := Node(b, xk, c, c0);
    assert Keys(x) == Keys(b) + {xk} + Keys(c);
    assert xk in Keys(x);
    assert AllAbove(b, k) && AllBelow(a, xk);
    assert Keys(Node(a, k, b, c1)) == Keys(a) + {k} + Keys(b);
  }

  /** A right rotation keeps the strict order, whatever the colours. */
  lemma RotatedRightOrdered(a: RBTree, xk: int, b: RBTree, k: int, c: RBTree, c0: Color, c1: Color, c2: Color)
    requires Ordered(Node(Node(a, xk, b, c0), k, c, c2))
    ensures Ordered(Node(a, xk, Node(b, k, c, c1), c2))
  {
    var x := Node(a, xk, b, c0);
    assert Keys(x) == Keys(a) + {xk} + Keys(b);
    assert xk in Keys(x);
    assert AllBelow(b, k) && AllAbove(c, xk);
    assert Keys(Node(b, k, c, c1)) == Keys(b) + {k} + Keys(c);
  }

  /**
   `_flip_colors` (btsrtavl.py:99-102), called only when both children are
   red, hence present. It negates the colours of the node and of its two
   children and of nothing else, and changes no link.
   */
  function FlipColors(t: RBTree): (r: RBTree)
    requires t.Node? && t.left.Node? && t.right.Node?
    ensures Shape(r) == Shape(t)
    ensures r.Node? && r.left.Node? && r.right.Node?
    ensures r.aug == Negate(t.aug)
    ensures r.left.aug == Negate(t.left.aug) && r.right.aug == Negate(t.right.aug)
    ensures r.left.left == t.left.left && r.left.right == t.left.right
    ensures r.right.left == t.right.left && r.right.right == t.right.right
    ensures InOrder(r) == InOrder(t) && Keys(r) == Keys(t) && Size(r) == Size(t)
    ensures Ordered(t) ==> Ordered(r)
  {
    var l, rt := t.left.(aug := Negate(t.left.aug)), t.right.(aug := Negate(t.right.aug));
    assert Keys(l) == Keys(t.left) && Keys(rt) == Keys(t.right);
    assert InOrder(l) == InOrder(t.left) && InOrder(rt) == InOrder(t.right);
    assert Size(l) == Size(t.left) && Size(rt) == Size(t.right);
    assert Shape(l) == Shape(t.left) && Shape(rt) == Shape(t.right);
    assert Ordered(l) == Ordered(t.left) && Ordered(rt) == Ordered(t.right);
    Node(l, t.key, rt, Negate(t.aug))
  }

  /**
   The three fix-ups `_insert` applies to a node after re-linking its child
   (btsrtavl.py:71-76), in that order and as written: a red right child with
   a non-red left child calls `_rotate_right`; a red left child with a red
   left grandchild calls `_rotate_left`; two red children flip the colours.
   The step raises exactly when a rotation is called on a node lacking the
   child it reads; nothing has been mutated at that point, so the node is
   left as it was. A step that completes keeps the keys and the order.
   */
  function FixUp(n: RBTree): (r: Outcome<RBTree>)
    requires n.Node?
    ensures r.Raised? <==>
      (IsRed(n.right) && n.left.Nil?) || (IsRed(n.left) && IsRed(n.left.left) && n.right.Nil?)
    ensures r.Raised? ==> r.tree == n
    ensures r.Done? ==> r.tree.Node? && InOrder(r.tree) == InOrder(n)
    ensures Keys(r.tree) == Keys(n) && Size(r.tree) == Size(n)
    ensures Ordered(n) ==> Ordered(r.tree)
  {
    var a := if IsRed(n.right) && !IsRed(n.left) then RotateRight(n) else Some(n);
    if a.None? then Raised(n)
    else
      var m := a.value;
      var b := if IsRed(m.left) && IsRed(m.left.left) then RotateLeft(m) else Some(m);
      if b.None? then
        // only reachable when the first fix-up did not rotate
        assert m == n;
        Raised(n)
      else
        var p := b.value;
        Done(if IsRed(p.left) && IsRed(p.right) then FlipColors(p) else p)
  }

  /**
   The descent half of `_insert` (btsrtavl.py:66-69) at a present node: a
   strictly smaller (larger) value is inserted into the left (right) subtree
   and the result re-linked; an equal value changes nothing. If the insertion
   below raised, the node was not re-linked, but the child object it still
   points to was already changed in place. Either way the node keeps its key
   and colour.
   */
  function Descend(n: RBTree, value: int): (r: Outcome<RBTree>)
    requires n.Node?
    ensures r.tree.Node? && r.tree.key == n.key && r.tree.aug == n.aug
    ensures value == n.key ==> r == Done(n)
    decreases n, 0
  {
    if value < n.key then
      match InsertRec(n.left, value)
      case Raised(l') => Raised(n.(left := l'))
      case Done(l') => Done(n.(left := l'))
    else if value > n.key then
      match InsertRec(n.right, value)
      case Raised(r') => Raised(n.(right := r'))
      case Done(r') => Done(n.(right := r'))
    else
      Done(n)
  }

  /**
   `_insert` (btsrtavl.py:62-78). An absent node becomes a red leaf; at a
   present node the descent runs and then, unless it raised, the fix-ups.
   A raise leaves the node's key and colour as they were.
   */
  function InsertRec(t: RBTree, value: int): (r: Outcome<RBTree>)
    ensures r.Done? ==> r.tree.Node?
    ensures r.Raised? ==> t.Node? && r.tree.Node? && r.tree.key == t.key && r.tree.aug == t.aug
    decreases t, 1
  {
    match t
    case Nil => Done(NewNode(value))
    case Node(_, _, _, _) =>
      match Descend(t, value)
      case Raised(m) => Raised(m)
      case Done(m) => FixUp(m)
  }

  /**
   `insert` (btsrtavl.py:58-60): re-link the root to what `_insert` returns,
   then paint it black. If `_insert` raises, neither happens and the tree is
   what the mutations made before the error left behind.
   */
  function Insert(t: RBTree, value: int): (r: Outcome<RBTree>)
    ensures r.Done? ==> r.tree.Node? && r.tree.aug == Black
    ensures r.Raised? ==> t.Node? && r.tree.Node? && r.tree.aug == t.aug
  {
    match InsertRec(t, value)
    case Done(s) => Done(s.(aug := Black))
    case Raised(s) => Raised(s)
  }

  /** The count an insertion should leave: one more node unless the value was stored. */
  function SizeAfter(t: RBTree, value: int): nat
  {
    if value in Keys(t) then Size(t) else Size(t) + 1
  }

  /**
   After the descent the subtree holds the old keys plus the value, which is
   added only when it was not already present, and stays strictly ordered;
   this holds on a raise as well.
   */
  lemma {:induction false} DescendKeeps(n: RBTree, value: int)
    requires n.Node?
    ensures Keys(Descend(n, value).tree) == Keys(n) + {value}
    ensures Ordered(n) ==> Ordered(Descend(n, value).tree)
    ensures Ordered(n) ==> Size(Descend(n, value).tree) == SizeAfter(n, value)
    decreases n, 0
  {
    if value < n.key {
      InsertRecKeeps(n.left, value);
    } else if value > n.key {
      InsertRecKeeps(n.right, value);
    }
  }

  /** The same for the whole `_insert` step, fix-ups included. */
  lemma {:induction false} InsertRecKeeps(t: RBTree, value: int)
    ensures Keys(InsertRec(t, value).tree) == Keys(t) + {value}
    ensures Ordered(t) ==> Ordered(InsertRec(t, value).tree)
    ensures Ordered(t) ==> Size(InsertRec(t, value).tree) == SizeAfter(t, value)
    decreases t, 1
  {
    if t.Node? {
      DescendKeeps(t, value);
    }
  }

  /**
   `insert` keeps the strict order and adds exactly the value, whether it
   completes or raises; a duplicate adds no node.
   */
  lemma InsertKeeps(t: RBTree, value: int)
    ensures Keys(Insert(t, value).tree) == Keys(t) + {value}
    ensures Ordered(t) ==> Ordered(Insert(t, value).tree)
    ensures Ordered(t) ==> Size(Insert(t, value).tree) == SizeAfter(t, value)
  {
    InsertRecKeeps(t, value);
  }

  /**
   A run of `insert` calls, one after another. A call that raises leaves the
   tree as the error found it, and the next call starts from there.
   */
  function InsertAll(t: RBTree, values: seq<int>): RBTree
    decreases |values|
  {
    if values == [] then t else InsertAll(Insert(t, values[0]).tree, values[1..])
  }

  /**
   Every tree reachable through `insert` calls has a black root, because
   `insert` paints it black or, on a raise, leaves the root's colour alone.
   */
  lemma {:induction false} InsertAllRootBlack(t: RBTree, values: seq<int>)
    requires RootBlack(t)
    ensures RootBlack(InsertAll(t, values))
    decreases |values|
  {
    if values != [] {
      assert InsertAll(t, values) == InsertAll(Insert(t, values[0]).tree, values[1..]);
      InsertAllRootBlack(Insert(t, values[0]).tree, values[1..]);
    }
  }

  /**
   A run of `insert` calls, raises included, stores exactly the inserted keys
   on top of the old ones and keeps the strict order.
   */
  lemma {:induction false} InsertAllKeeps(t: RBTree, values: seq<int>)
    ensures Keys(InsertAll(t, values)) == Keys(t) + set v | v in values
    ensures Ordered(t) ==> Ordered(InsertAll(t, values))
    decreases |values|
  {
    if values != [] {
      var next := Insert(t, values[0]).tree;
      assert InsertAll(t, values) == InsertAll(next, values[1..]);
      InsertKeeps(t, values[0]);
      InsertAllKeeps(next, values[1..]);
      assert (set v | v in values) == {values[0]} + set v | v in values[1..];
    }
  }

  /** The strict order makes the in-order sequence strictly increasing: no key twice. */
  lemma {:induction false} OrderedInOrderIncreasing(t: RBTree)
    requires Ordered(t)
    ensures Increasing(InOrder(t))
  {
    match t
    case Nil =>
    case Node(l, k, r, _) =>
      OrderedInOrderIncreasing(l);
      OrderedInOrderIncreasing(r);
      InOrderKeys(l);
      InOrderKeys(r);
      ConcatIncreasing(InOrder(l), k, InOrder(r));
  }

  /** The strict order implies the weak order the standard descent needs. */
  lemma {:induction false} OrderedIsWeak(t: RBTree)
    requires Ordered(t)
    ensures WeaklyOrdered(t)
  {
    match t
    case Nil =>
    case Node(l, _, r, _) =>
      OrderedIsWeak(l);
      OrderedIsWeak(r);
  }

  /**
   `search` (btsrtavl.py:104-115) is the standard descent and ignores colours;
   on an ordered tree it answers exactly whether the value is stored.
   */
  lemma SearchCorrect(t: RBTree, value: int)
    requires Ordered(t)
    ensures Find(t, value) <==> value in Keys(t)
  {
    OrderedIsWeak(t);
  }

  /** `_flip_colors` undoes itself. */
  lemma FlipColorsTwice(t: RBTree)
    requires t.Node? && t.left.Node? && t.right.Node?
    ensures FlipColors(FlipColors(t)) == t
  {
  }

  /**
   `_rotate_right` undoes `_rotate_left` up to colour: the node comes back
   with all its links, and only its right child ends up red.
   */
  lemma RotateRightUndoesRotateLeft(t: RBTree)
    requires t.Node? && t.right.Node?
    ensures RotateLeft(t).Some? && RotateRight(RotateLeft(t).value).Some?
    ensures RotateRight(RotateLeft(t).value).value == t.(right := t.right.(aug := Red))
  {
  }

  /**
   The defect: inserting a larger key into a one-node tree raises.
   The new red leaf is linked as the right child, the first fix-up calls
   `_rotate_right` on the root, and that reads the absent left child.
   */
  lemma LargerKeyIntoSingletonRaises(k: int, value: int, c: Color)
    requires k < value
    ensures Insert(Node(Nil, k, Nil, c), value) == Raised(Node(Nil, k, NewNode(value), c))
  {
    var n := Node(Nil, k, NewNode(value), c);
    assert InsertRec(Nil, value) == Done(NewNode(value));
    assert RotateRight(n).None?;
    assert FixUp(n) == Raised(n);
    assert InsertRec(Node(Nil, k, Nil, c), value) == Raised(n);
  }

  /**
   Keys inserted in descending order raise on the third one, through the
   second fix-up: the root has a red left child and a red left grandchild,
   and `_rotate_left` reads the absent right child.
   */
  lemma DescendingKeysRaise()
    ensures Insert(Nil, 30) == Done(Node(Nil, 30, Nil, Black))
    ensures Insert(Node(Nil, 30, Nil, Black), 20) == Done(Node(NewNode(20), 30, Nil, Black))
    ensures Insert(Node(NewNode(20), 30, Nil, Black), 10)
         == Raised(Node(Node(NewNode(10), 20, Nil, Red), 30, Nil, Black))
  {
  }

  /**
   Not every insertion raises: 20, 10, 30 completes, and the third insert
   takes the colour-flip path, leaving a black root with two black children.
   */
  lemma BalancedThreeKeys()
    ensures Insert(Node(NewNode(10), 20, Nil, Black), 30)
         == Done(Node(Node(Nil, 10, Nil, Black), 20, Node(Nil, 30, Nil, Black), Black))
  {
  }
  /**
   An equal key adds no node, but the fix-ups still run on the way back up.
   After 20, 10, 30, 25, 35, which all complete, the root holds 10 with only
   a red right child, so inserting 10 again makes the first fix-up call
   `_rotate_right` on the absent left child and raise, leaving the tree as it was.
   */
  lemma DuplicateKeyRaises()
    ensures Insert(Node(Node(Nil, 10, Nil, Black), 20, Node(Nil, 30, Nil, Black), Black), 25)
         == Done(Node(Node(Nil, 10, Nil, Black), 20, Node(NewNode(25), 30, Nil, Black), Black))
    ensures Insert(Node(Node(Nil, 10, Nil, Black), 20, Node(NewNode(25), 30, Nil, Black), Black), 35)
         == Done(Node(Nil, 10, Node(Nil, 20, Node(Node(Nil, 25, Nil, Black), 30, Node(Nil, 35, Nil, Black), Red), Red), Black))
    ensures Insert(Node(Nil, 10, Node(Nil, 20, Node(Node(Nil, 25, Nil, Black), 30, Node(Nil, 35, Nil, Black), Red), Red), Black), 10)
         == Raised(Node(Nil, 10, Node(Nil, 20, Node(Node(Nil, 25, Nil, Black), 30, Node(Nil, 35, Nil, Black), Red), Red), Black))
  {
  }


  /**
   The fix-ups as a left-leaning red-black tree needs them: a red right child
   with a non-red left child calls `_rotate_left`, a red left-left pair calls
   `_rotate_right`. Each guard now establishes that the child its rotation
   reads is present, so the step never raises.
   */
  function FixUpCorrected(n: RBTree): (r: RBTree)
    requires n.Node?
    ensures r.Node? && InOrder(r) == InOrder(n)
    ensures Keys(r) == Keys(n) && Size(r) == Size(n)
    ensures Ordered(n) ==> Ordered(r)
  {
    var m := if IsRed(n.right) && !IsRed(n.left) then RotateLeft(n).value else n;
    var p := if IsRed(m.left) && IsRed(m.left.left) then RotateRight(m).value else m;
    if IsRed(p.left) && IsRed(p.right) then FlipColors(p) else p
  }

  /** `_insert` over the corrected fix-ups: total, and it keeps keys and order. */
  function InsertRecCorrected(t: RBTree, value: int): (r: RBTree)
    ensures r.Node?
    ensures Keys(r) == Keys(t) + {value}
    ensures Ordered(t) ==> Ordered(r)
    ensures Ordered(t) ==> Size(r) == if value in Keys(t) then Size(t) else Size(t) + 1
  {
    match t
    case Nil => NewNode(value)
    case Node(l, k, rt, c) =>
      if value < k then FixUpCorrected(Node(InsertRecCorrected(l, value), k, rt, c))
      else if value > k then FixUpCorrected(Node(l, k, InsertRecCorrected(rt, value), c))
      else FixUpCorrected(t)
  }

  /** `insert` over the corrected fix-ups: it always completes with a black root. */
  function InsertCorrected(t: RBTree, value: int): (r: RBTree)
    ensures r.Node? && r.aug == Black
    ensures Keys(r) == Keys(t) + {value}
    ensures Ordered(t) ==> Ordered(r)
    ensures Ordered(t) ==> Size(r) == if value in Keys(t) then Size(t) else Size(t) + 1
  {
    var s := InsertRecCorrected(t, value);
    Node(s.left, s.key, s.right, Black)
  }

  /** Where the code as written raises, the corrected insertion completes. */
  lemma CorrectedInsertsLargerKey(k: int, value: int)
    requires k < value
    ensures InsertCorrected(Node(Nil, k, Nil, Black), value)
         == Node(Node(Nil, k, Nil, Red), value, Nil, Black)
  {
    var n := Node(Nil, k, NewNode(value), Black);
    assert InsertRecCorrected(Nil, value) == NewNode(value);
    assert RotateLeft(n).value == Node(Node(Nil, k, Nil, Red), value, Nil, Black);
    assert FixUpCorrected(n) == Node(Node(Nil, k, Nil, Red), value, Nil, Black);
    assert InsertRecCorrected(Node(Nil, k, Nil, Black), value) == FixUpCorrected(n);
  }
}
