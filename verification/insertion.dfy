/**
 Insertion: `insertRecursively` and the iterative `insert`. Both descend
 from the root by `<` and `>` and attach a new childless node at the first
 absent child position on the way; meeting a node that already holds the
 value ends the descent with no change. The source mutates the tree in
 place and returns it for chaining; here each operation returns the new
 tree.
 */
module Insertion {
  import opened Wrappers
  import opened Trees
  import opened Search

  /**
   `r` is `t` with exactly one absent child slot filled by a childless node
   holding `v`: every node of `t` keeps its value and its position.
   */
  predicate AddsLeaf(t: Tree, r: Tree, v: int)
  {
    match t
    case Leaf => r == Node(Leaf, v, Leaf)
    case Node(l, x, right) =>
      && r.Node?
      && r.val == x
      && ((r.right == right && AddsLeaf(l, r.left, v)) || (r.left == l && AddsLeaf(right, r.right, v)))
  }

  /** Filling one slot adds one node and the one value. */
  lemma {:induction false} AddsLeafGrowsByOne(t: Tree, r: Tree, v: int)
    requires AddsLeaf(t, r, v)
    ensures Size(r) == Size(t) + 1
    ensures Values(r) == Values(t) + {v}
  {
    match t
    case Leaf =>
    case Node(l, x, right) =>
      if r.right == right && AddsLeaf(l, r.left, v) {
        AddsLeafGrowsByOne(l, r.left, v);
      } else {
        AddsLeafGrowsByOne(right, r.right, v);
      }
  }

  /** The recursion of `insertRecursively`. */
  function InsertRecursively(t: Tree, v: int): (r: Tree)
    ensures Values(r) == Values(t) + {v}
    ensures IsBst(t) ==> IsBst(r)
    ensures FindRecursively(t, v).Some? ==> r == t
    ensures FindRecursively(t, v).None? ==>
              Size(r) == Size(t) + 1 && FindRecursively(r, v) == Some(Node(Leaf, v, Leaf))
    ensures FindRecursively(t, v).None? ==> AddsLeaf(t, r, v)
    ensures FindRecursively(r, v).Some?
  {
    match t
    case Leaf => Node(Leaf, v, Leaf)
    case Node(l, x, right) =>
      if v < x then Node(InsertRecursively(l, v), x, right)
      else if v > x then Node(l, x, InsertRecursively(right, v))
      else t
  }

  /**
   One step of the iterative descent: the direction taken at a node, with
   the parts of that node the descent leaves behind.
   */
  datatype Frame = WentLeft(val: int, right: Tree) | WentRight(left: Tree, val: int)

  /** Puts a (possibly rebuilt) child back under the node a frame records. */
  function Attach(f: Frame, child: Tree): Tree
  {
    match f
    case WentLeft(x, right) => Node(child, x, right)
    case WentRight(left, x) => Node(left, x, child)
  }

  /** Rebuilds a whole tree from a path, innermost frame first, and the subtree at its end. */
  function Plug(path: seq<Frame>, sub: Tree): Tree
    decreases |path|
  {
    if path == [] then sub else Plug(path[1..], Attach(path[0], sub))
  }

  /**
   The loop of `insert`. It walks down from the root remembering the path;
   where the source links the new node into an absent child slot, or stops
   on an equal value, the model rebuilds the spine above that point.
   */
  method Insert(t: Tree, v: int) returns (r: Tree)
    ensures r == InsertRecursively(t, v)
  {
    if t.Leaf? {
      return Node(Leaf, v, Leaf);
    }
    var path: seq<Frame> := [];
    var current := t;
    var sub: Tree;
    while true
      invariant current.Node?
      invariant Plug(path, InsertRecursively(current, v)) == InsertRecursively(t, v)
      decreases current
    {
      if v < current.val {
        if current.left.Leaf? {
          sub := Node(Node(Leaf, v, Leaf), current.val, current.right);
          break;
        }
        path := [WentLeft(current.val, current.right)] + path;
        current := current.left;
      } else if v > current.val {
        if current.right.Leaf? {
          sub := Node(current.left, current.val, Node(Leaf, v, Leaf));
          break;
        }
        path := [WentRight(current.left, current.val)] + path;
        current := current.right;
      } else {
        sub := current;
        break;
      }
    }
    r := sub;
    while path != []
      invariant Plug(path, r) == InsertRecursively(t, v)
      decreases |path|
    {
      r := Attach(path[0], r);
      path := path[1..];
    }
  }

  /** On a binary search tree the node count grows by one exactly when `v` was absent. */
  lemma {:induction false} InsertSize(t: Tree, v: int)
    requires IsBst(t)
    ensures Size(InsertRecursively(t, v)) == Size(t) + (if v in Values(t) then 0 else 1)
    ensures v in Values(t) ==> InsertRecursively(t, v) == t
  {
    FindCorrect(t, v);
  }

  /**
   Because an equal value ends the descent without a change, insertion into
   a binary search tree never stores a value twice: the tree it returns has
   one node per distinct value.
   */
  lemma InsertKeepsValuesDistinct(t: Tree, v: int)
    requires IsBst(t)
    ensures |Values(InsertRecursively(t, v))| == Size(InsertRecursively(t, v))
  {
    BstHasNoDuplicates(InsertRecursively(t, v));
  }

  /** Inserting a value a second time changes nothing. */
  lemma InsertIdempotent(t: Tree, v: int)
    ensures InsertRecursively(InsertRecursively(t, v), v) == InsertRecursively(t, v)
  {
  }

  /** Inserting the values of `vs` one after another, front to back. */
  function InsertAll(t: Tree, vs: seq<int>): (r: Tree)
    ensures Values(r) == Values(t) + set x | x in vs
    ensures IsBst(t) ==> IsBst(r)
    decreases |vs|
  {
    if vs == [] then t else InsertAll(InsertRecursively(t, vs[0]), vs[1..])
  }

  /**
   Any sequence of insertions into the empty tree yields a binary search
   tree in which exactly the inserted values are found.
   */
  lemma {:induction false} BuiltTreeFinds(vs: seq<int>, v: int)
    ensures IsBst(InsertAll(Leaf, vs))
    ensures FindRecursively(InsertAll(Leaf, vs), v).Some? <==> v in vs
  {
    FindCorrect(InsertAll(Leaf, vs), v);
  }
}
