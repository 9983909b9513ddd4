/**
 The node shape shared by the three containers of btsrtavl.py (the unbalanced
 search tree, the red-black tree and the AVL tree), as immutable values.

 Every node holds an integer key and at most two children; there are no parent
 links, so a tree is exactly a term of `Tree<A>`. The type parameter is the
 per-variant annotation a node carries: nothing (`()`) for the unbalanced
 tree, a colour for the red-black tree, the cached height for the AVL tree.
 */
module Trees {

  datatype Option<T> = None | Some(value: T)

  /** `Nil` is an absent child (Python's `None`). */
  datatype Tree<A> = Nil | Node(left: Tree<A>, key: int, right: Tree<A>, aug: A)

  /**
   The result of an insertion step that may raise part way through.
   `Done(t)`: the step returns `t`, the new root of the subtree, which the
   caller re-links. `Raised(t)`: the step raises `AttributeError` (a field
   read on `None`); `t` is the subtree still hanging from the node object the
   step was given, as left behind by the mutations made before the error.
   */
  datatype Outcome<T> = Done(tree: T) | Raised(tree: T)

  /** The keys of a tree, with multiplicity. */
  function Elems<A>(t: Tree<A>): multiset<int>
  {
    match t
    case Nil => multiset{}
    case Node(l, k, r, _) => Elems(l) + multiset{k} + Elems(r)
  }

  /** The keys of a tree, as a set. */
  function Keys<A>(t: Tree<A>): set<int>
  {
    match t
    case Nil => {}
    case Node(l, k, r, _) => Keys(l) + {k} + Keys(r)
  }

  /** The number of nodes. */
  function Size<A>(t: Tree<A>): nat
  {
    match t
    case Nil => 0
    case Node(l, _, r, _) => Size(l) + 1 + Size(r)
  }

  /** The keys in in-order (left subtree, node, right subtree). */
  function InOrder<A>(t: Tree<A>): seq<int>
  {
    match t
    case Nil => []
    case Node(l, k, r, _) => InOrder(l) + [k] + InOrder(r)
  }

  /** The true height: 0 for an absent node, 1 for a leaf. */
  function Height<A>(t: Tree<A>): nat
  {
    match t
    case Nil => 0
    case Node(l, _, r, _) => 1 + Max(Height(l), Height(r))
  }

  /** The tree with every annotation dropped: its links and keys only. */
  function Shape<A>(t: Tree<A>): Tree<()>
  {
    match t
    case Nil => Nil
    case Node(l, k, r, _) => Node(Shape(l), k, Shape(r), ())
  }

  function Max(a: int, b: int): int
  {
    if a < b then b else a
  }

  predicate AllBelow<A>(t: Tree<A>, k: int)
  {
    forall x | x in Keys(t) :: x < k
  }

  predicate AllAtMost<A>(t: Tree<A>, k: int)
  {
    forall x | x in Keys(t) :: x <= k
  }

  predicate AllAbove<A>(t: Tree<A>, k: int)
  {
    forall x | x in Keys(t) :: k < x
  }

  predicate AllAtLeast<A>(t: Tree<A>, k: int)
  {
    forall x | x in Keys(t) :: k <= x
  }

  /**
   The weakest search-tree order: every key in a left subtree is at most the
   node's key, every key in a right subtree at least the node's key. Each of
   the three containers keeps a (possibly stronger) form of it.
   */
  predicate WeaklyOrdered<A>(t: Tree<A>)
  {
    match t
    case Nil => true
    case Node(l, k, r, _) =>
      AllAtMost(l, k) && AllAtLeast(r, k) && WeaklyOrdered(l) && WeaklyOrdered(r)
  }

  /**
   The standard descent (`_search_tree` of the unbalanced and of the
   red-black tree, btsrtavl.py:33-41 and 107-115): stop at an absent node,
   succeed on an equal key, go left on a smaller value, right otherwise.
   On a weakly ordered tree it finds exactly the keys the tree holds.
   */
  function Find<A>(t: Tree<A>, value: int): (found: bool)
    ensures WeaklyOrdered(t) ==> (found <==> value in Keys(t))
  {
    match t
    case Nil => false
    case Node(l, k, r, _) =>
      if k == value then true
      else if value < k then Find(l, value)
      else Find(r, value)
  }

  predicate NonDecreasing(s: seq<int>)
  {
    forall i, j | 0 <= i < j < |s| :: s[i] <= s[j]
  }

  predicate Increasing(s: seq<int>)
  {
    forall i, j | 0 <= i < j < |s| :: s[i] < s[j]
  }

  /** The in-order traversal lists exactly the keys of the tree. */
  lemma {:induction false} InOrderElems<A>(t: Tree<A>)
    ensures multiset(InOrder(t)) == Elems(t)
  {
    match t
    case Nil =>
    case Node(l, k, r, _) =>
      InOrderElems(l);
      InOrderElems(r);
      calc {
        multiset(InOrder(t));
        multiset(InOrder(l) + [k] + InOrder(r));
        multiset(InOrder(l)) + multiset{k} + multiset(InOrder(r));
      }
  }

  /** A key is in the in-order traversal exactly when it is in the tree. */
  lemma {:induction false} InOrderKeys<A>(t: Tree<A>)
    ensures forall x :: x in InOrder(t) <==> x in Keys(t)
  {
    match t
    case Nil =>
    case Node(l, k, r, _) =>
      InOrderKeys(l);
      InOrderKeys(r);
  }

  /** A key occurs in the multiset of keys exactly when it is in the set of keys. */
  lemma {:induction false} ElemsKeys<A>(t: Tree<A>)
    ensures forall x :: x in Elems(t) <==> x in Keys(t)
  {
    match t
    case Nil =>
    case Node(l, k, r, _) =>
      ElemsKeys(l);
      ElemsKeys(r);
  }

  /** One more copy of `v` below the left of a node is one more copy in the node. */
  lemma ElemsGrowLeft<A>(l: Tree<A>, l': Tree<A>, k: int, r: Tree<A>, a: A, a': A, v: int)
    requires Elems(l') == Elems(l) + multiset{v}
    ensures Elems(Node(l', k, r, a')) == Elems(Node(l, k, r, a)) + multiset{v}
  {
    calc {
      Elems(Node(l', k, r, a'));
      Elems(l) + multiset{v} + multiset{k} + Elems(r);
      Elems(l) + multiset{k} + Elems(r) + multiset{v};
    }
  }

  /** One more copy of `v` below the right of a node is one more copy in the node. */
  lemma ElemsGrowRight<A>(l: Tree<A>, k: int, r: Tree<A>, r': Tree<A>, a: A, a': A, v: int)
    requires Elems(r') == Elems(r) + multiset{v}
    ensures Elems(Node(l, k, r', a')) == Elems(Node(l, k, r, a)) + multiset{v}
  {
    calc {
      Elems(Node(l, k, r', a'));
      Elems(l) + multiset{k} + (Elems(r) + multiset{v});
      Elems(l) + multiset{k} + Elems(r) + multiset{v};
    }
  }

  /** Two trees with the same in-order traversal hold the same keys. */
  lemma SameInOrderSameKeys<A, B>(a: Tree<A>, b: Tree<B>)
    requires InOrder(a) == InOrder(b)
    ensures Keys(a) == Keys(b) && Elems(a) == Elems(b)
  {
    InOrderElems(a);
    InOrderElems(b);
    InOrderKeys(a);
    InOrderKeys(b);
    forall x ensures x in Keys(a) <==> x in Keys(b) {
      assert x in Keys(a) <==> x in InOrder(a);
      assert x in Keys(b) <==> x in InOrder(b);
    }
  }

  /** A weakly ordered tree lists its keys in non-decreasing order. */
  lemma {:induction false} WeaklyOrderedInOrder<A>(t: Tree<A>)
    requires WeaklyOrdered(t)
    ensures NonDecreasing(InOrder(t))
  {
    match t
    case Nil =>
    case Node(l, k, r, _) =>
      WeaklyOrderedInOrder(l);
      WeaklyOrderedInOrder(r);
      var s, u := InOrder(l), InOrder(r);
      InOrderKeys(l);
      InOrderKeys(r);
      ConcatNonDecreasing(s, k, u);
  }

  /** Joining two sorted runs around a pivot that separates them stays sorted. */
  lemma ConcatNonDecreasing(s: seq<int>, k: int, u: seq<int>)
    requires NonDecreasing(s) && NonDecreasing(u)
    requires forall x | x in s :: x <= k
    requires forall x | x in u :: k <= x
    ensures NonDecreasing(s + [k] + u)
  {
    var w := s + [k] + u;
    forall i, j | 0 <= i < j < |w| ensures w[i] <= w[j] {
      if j < |s| {
      } else if i < |s| {
        assert w[i] in s;
        if j > |s| { assert w[j] in u; }
      } else if i == |s| {
        assert w[j] in u;
      }
    }
  }

  /** The strict form: all three relations strict gives a strictly increasing traversal. */
  lemma ConcatIncreasing(s: seq<int>, k: int, u: seq<int>)
    requires Increasing(s) && Increasing(u)
    requires forall x | x in s :: x < k
    requires forall x | x in u :: k < x
    ensures Increasing(s + [k] + u)
  {
    var w := s + [k] + u;
    forall i, j | 0 <= i < j < |w| ensures w[i] < w[j] {
      if j < |s| {
      } else if i < |s| {
        assert w[i] in s;
        if j > |s| { assert w[j] in u; }
      } else if i == |s| {
        assert w[j] in u;
      }
    }
  }
}
