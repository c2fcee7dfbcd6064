/**
 The three depth-first traversals. The source walks the tree with an inner
 `traverse` that pushes each value onto one shared result array; that
 accumulator form is modelled by the `...Traverse` functions, and each is
 proved to agree with the compositional definition of its order.
 */
module Traversal {
  import opened Trees

  /** A sequence whose every element is strictly smaller than each later one. */
  predicate StrictlyIncreasing(s: seq<int>)
  {
    forall i, j | 0 <= i < j < |s| :: s[i] < s[j]
  }

  /** Node, then left subtree, then right subtree. */
  function PreOrder(t: Tree): seq<int>
  {
    match t
    case Leaf => []
    case Node(l, v, r) => [v] + PreOrder(l) + PreOrder(r)
  }

  /** Left subtree, then node, then right subtree. */
  function InOrder(t: Tree): seq<int>
  {
    match t
    case Leaf => []
    case Node(l, v, r) => InOrder(l) + [v] + InOrder(r)
  }

  /** Left subtree, then right subtree, then node. */
  function PostOrder(t: Tree): seq<int>
  {
    match t
    case Leaf => []
    case Node(l, v, r) => PostOrder(l) + PostOrder(r) + [v]
  }

  /** The pre-order `traverse`: push the value, then walk left, then right. */
  function PreOrderTraverse(t: Tree, result: seq<int>): (s: seq<int>)
    ensures s == result + PreOrder(t)
  {
    match t
    case Leaf => result
    case Node(l, v, r) =>
      var afterLeft := PreOrderTraverse(l, result + [v]);
      assert result + PreOrder(t) == (result + [v] + PreOrder(l)) + PreOrder(r);
      PreOrderTraverse(r, afterLeft)
  }

  /** The in-order `traverse`: walk left, push the value, then walk right. */
  function InOrderTraverse(t: Tree, result: seq<int>): (s: seq<int>)
    ensures s == result + InOrder(t)
  {
    match t
    case Leaf => result
    case Node(l, v, r) =>
      var afterNode := InOrderTraverse(l, result) + [v];
      assert result + InOrder(t) == (result + InOrder(l) + [v]) + InOrder(r);
      InOrderTraverse(r, afterNode)
  }

  /** The post-order `traverse`: walk left, walk right, then push the value. */
  function PostOrderTraverse(t: Tree, result: seq<int>): (s: seq<int>)
    ensures s == result + PostOrder(t)
  {
    match t
    case Leaf => result
    case Node(l, v, r) =>
      var afterRight := PostOrderTraverse(r, PostOrderTraverse(l, result));
      assert result + PostOrder(t) == (result + PostOrder(l) + PostOrder(r)) + [v];
      afterRight + [v]
  }

  /** `dfsPreOrder`: every node once, the root's value first. */
  function DfsPreOrder(t: Tree): (s: seq<int>)
    ensures s == PreOrder(t)
    ensures |s| == Size(t)
    ensures t.Node? ==> |s| > 0 && s[0] == t.val
  {
    TraversalsVisitEveryNode(t);
    PreOrderTraverse(t, [])
  }

  /**
   `dfsInOrder`: every node once; on a binary search tree the values come
   out strictly ascending, and they are exactly the stored values.
   */
  function DfsInOrder(t: Tree): (s: seq<int>)
    ensures s == InOrder(t)
    ensures |s| == Size(t)
    ensures forall x :: x in s <==> x in Values(t)
    ensures IsBst(t) ==> StrictlyIncreasing(s)
  {
    TraversalsVisitEveryNode(t);
    InOrderValues(t);
    InOrderSortedIffBst(t);
    InOrderTraverse(t, [])
  }

  /** `dfsPostOrder`: every node once, the root's value last. */
  function DfsPostOrder(t: Tree): (s: seq<int>)
    ensures s == PostOrder(t)
    ensures |s| == Size(t)
    ensures t.Node? ==> |s| > 0 && s[|s| - 1] == t.val
  {
    TraversalsVisitEveryNode(t);
    PostOrderTraverse(t, [])
  }

  /**
   Each order lists every node exactly once, so the three are
   rearrangements of one another.
   */
  lemma {:induction false} TraversalsVisitEveryNode(t: Tree)
    ensures |PreOrder(t)| == |InOrder(t)| == |PostOrder(t)| == Size(t)
    ensures multiset(PreOrder(t)) == multiset(InOrder(t)) == multiset(PostOrder(t)) == Bag(t)
  {
    match t
    case Leaf =>
    case Node(l, v, r) =>
      TraversalsVisitEveryNode(l);
      TraversalsVisitEveryNode(r);
  }

  /** Strict ascent of a sequence split around a pivot element. */
  lemma StrictlyIncreasingAround(a: seq<int>, v: int, b: seq<int>)
    ensures StrictlyIncreasing(a + [v] + b) <==>
              && StrictlyIncreasing(a)
              && StrictlyIncreasing(b)
              && (forall x | x in a :: x < v)
              && (forall x | x in b :: v < x)
  {
    var s := a + [v] + b;
    if StrictlyIncreasing(s) {
      forall i, j | 0 <= i < j < |a| ensures a[i] < a[j] {
        assert s[i] == a[i] && s[j] == a[j];
      }
      forall i, j | 0 <= i < j < |b| ensures b[i] < b[j] {
        assert s[|a| + 1 + i] == b[i] && s[|a| + 1 + j] == b[j];
      }
      forall x | x in a ensures x < v {
        var i :| 0 <= i < |a| && a[i] == x;
        assert s[i] == x && s[|a|] == v;
      }
      forall x | x in b ensures v < x {
        var j :| 0 <= j < |b| && b[j] == x;
        assert s[|a| + 1 + j] == x && s[|a|] == v;
      }
    }
    if && StrictlyIncreasing(a)
       && StrictlyIncreasing(b)
       && (forall x | x in a :: x < v)
       && (forall x | x in b :: v < x)
    {
      forall i, j | 0 <= i < j < |s| ensures s[i] < s[j] {
        if j < |a| {
          assert s[i] == a[i] && s[j] == a[j];
        } else if j == |a| {
          assert s[i] == a[i] && s[i] in a;
        } else if i < |a| {
          assert s[i] in a && s[j] == b[j - |a| - 1] && s[j] in b;
        } else if i == |a| {
          assert s[j] == b[j - |a| - 1] && s[j] in b;
        } else {
          assert s[i] == b[i - |a| - 1] && s[j] == b[j - |a| - 1];
        }
      }
    }
  }

  /**
   A tree is a binary search tree exactly when its in-order sequence is
   strictly ascending.
   */
  lemma {:induction false} InOrderSortedIffBst(t: Tree)
    ensures StrictlyIncreasing(InOrder(t)) <==> IsBst(t)
  {
    match t
    case Leaf =>
    case Node(l, v, r) =>
      InOrderSortedIffBst(l);
      InOrderSortedIffBst(r);
      StrictlyIncreasingAround(InOrder(l), v, InOrder(r));
      InOrderValues(l);
      InOrderValues(r);
  }

  /** The in-order sequence holds exactly the tree's values. */
  lemma InOrderValues(t: Tree)
    ensures forall x :: x in InOrder(t) <==> x in Values(t)
  {
    TraversalsVisitEveryNode(t);
    BagMatchesValues(t);
    assert forall x :: x in InOrder(t) <==> x in multiset(InOrder(t));
  }
}
