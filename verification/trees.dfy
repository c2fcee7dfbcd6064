/**
 The shape every tree operation works on. A `Node` holds a value and owns
 its two child subtrees; `Leaf` stands for an absent child (the source's
 `null`), and a tree whose root is `Leaf` is the empty tree. Trees are
 immutable values, so ownership is exclusive and cycles are impossible by
 construction.
 */
module Trees {

  datatype Tree = Leaf | Node(left: Tree, val: int, right: Tree)

  /** The set of values stored anywhere in `t`. */
  function Values(t: Tree): set<int>
  {
    match t
    case Leaf => {}
    case Node(l, v, r) => Values(l) + {v} + Values(r)
  }

  /** The number of nodes in `t`. */
  function Size(t: Tree): nat
  {
    match t
    case Leaf => 0
    case Node(l, _, r) => Size(l) + 1 + Size(r)
  }

  /** The values of `t` counted once per node holding them. */
  function Bag(t: Tree): multiset<int>
  {
    match t
    case Leaf => multiset{}
    case Node(l, v, r) => Bag(l) + multiset{v} + Bag(r)
  }

  /** The bag has one entry per node, and its elements are the stored values. */
  lemma {:induction false} BagMatchesValues(t: Tree)
    ensures |Bag(t)| == Size(t)
    ensures forall x :: x in Bag(t) <==> x in Values(t)
  {
    match t
    case Leaf =>
    case Node(l, v, r) =>
      BagMatchesValues(l);
      BagMatchesValues(r);
  }

  /**
   The binary-search-tree property: at every node, every value of the left
   subtree is strictly smaller and every value of the right subtree is
   strictly greater than the node's own value.
   */
  predicate IsBst(t: Tree)
  {
    match t
    case Leaf => true
    case Node(l, v, r) =>
      && IsBst(l)
      && IsBst(r)
      && (forall x | x in Values(l) :: x < v)
      && (forall x | x in Values(r) :: v < x)
  }

  /** `s` is `t` itself or a subtree hanging somewhere below it. */
  predicate IsSubtree(s: Tree, t: Tree)
  {
    s == t || (t.Node? && (IsSubtree(s, t.left) || IsSubtree(s, t.right)))
  }

  /** A subtree holds no value its enclosing tree does not hold. */
  lemma {:induction false} SubtreeValues(s: Tree, t: Tree)
    requires IsSubtree(s, t)
    ensures Values(s) <= Values(t)
    ensures Size(s) <= Size(t)
  {
    if s != t {
      if IsSubtree(s, t.left) {
        SubtreeValues(s, t.left);
      } else {
        SubtreeValues(s, t.right);
      }
    }
  }

  /** No value occurs in two nodes of a binary search tree. */
  lemma {:induction false} BstHasNoDuplicates(t: Tree)
    requires IsBst(t)
    ensures |Values(t)| == Size(t)
  {
    match t
    case Leaf =>
    case Node(l, v, r) =>
      BstHasNoDuplicates(l);
      BstHasNoDuplicates(r);
      SeparatedUnionSize(Values(l), v, Values(r));
  }

  /** Sets separated by a pivot value are disjoint, so their sizes add up. */
  lemma SeparatedUnionSize(a: set<int>, v: int, b: set<int>)
    requires forall x | x in a :: x < v
    requires forall x | x in b :: v < x
    ensures |a + {v} + b| == |a| + 1 + |b|
  {
    var c := a + {v};
    assert v !in a;
    assert |c| == |a| + 1;
    assert forall x :: x in b ==> x !in c;
    assert c !! b;
    assert c * b == {};
  }
}
