/**
 Lookup by value: `findRecursively` and the iterative `find`. Both descend
 from the root, going left when the value sought is smaller than the
 node's value and right otherwise, and stop at the first node holding it.
 The matching node is returned as the subtree rooted there.
 */
module Search {
  import opened Wrappers
  import opened Trees

  /** The recursive descent of `findRecursively`. */
  function FindRecursively(t: Tree, v: int): (r: Option<Tree>)
    ensures r.Some? ==> r.value.Node? && r.value.val == v && IsSubtree(r.value, t)
    ensures r.Some? ==> v in Values(t)
    ensures t == Leaf ==> r == None
  {
    match t
    case Leaf => None
    case Node(l, x, right) =>
      if v == x then Some(t)
      else if v < x then FindRecursively(l, v)
      else FindRecursively(right, v)
  }

  /** The loop of `find`; it returns exactly what the recursive variant returns. */
  method Find(t: Tree, v: int) returns (r: Option<Tree>)
    ensures r == FindRecursively(t, v)
  {
    var current := t;
    while current.Node?
      invariant FindRecursively(current, v) == FindRecursively(t, v)
      decreases current
    {
      if v == current.val {
        return Some(current);
      } else if v < current.val {
        current := current.left;
      } else {
        current := current.right;
      }
    }
    return None;
  }

  /** On a binary search tree the descent finds `v` exactly when `v` is stored. */
  lemma {:induction false} FindCorrect(t: Tree, v: int)
    requires IsBst(t)
    ensures FindRecursively(t, v).Some? <==> v in Values(t)
  {
    match t
    case Leaf =>
    case Node(l, x, r) =>
      if v < x {
        FindCorrect(l, v);
        assert v !in Values(r);
      } else if v > x {
        FindCorrect(r, v);
        assert v !in Values(l);
      }
  }
}
