/**
 Breadth-first traversal. The source keeps a first-in-first-out queue of
 nodes: it removes the front node, records its value, and appends the
 node's existing children, left before right, until the queue is empty.
 `Drain` is that loop as a function; `LevelByLevel` is an independent
 definition that lists a whole level before descending to the next, and
 the two are proved equal.
 */
module LevelOrder {
  import opened Wrappers
  import opened Trees
  import Traversal

  /** Total node count of a queue of trees. */
  function SizeSum(q: seq<Tree>): nat
  {
    if q == [] then 0 else Size(q[0]) + SizeSum(q[1..])
  }

  /** Total multiset of the values stored in a queue of trees. */
  function QueueBag(q: seq<Tree>): multiset<int>
  {
    if q == [] then multiset{} else Bag(q[0]) + QueueBag(q[1..])
  }

  /** A queue holds no absent children. */
  predicate AllNodes(q: seq<Tree>)
  {
    forall i | 0 <= i < |q| :: q[i].Node?
  }

  /** A child slot as the queue sees it: a present child, or nothing. */
  function Present(t: Tree): seq<Tree>
  {
    if t.Node? then [t] else []
  }

  /** The children of a node that exist, left before right. */
  function Children(t: Tree): seq<Tree>
  {
    if t.Leaf? then [] else Present(t.left) + Present(t.right)
  }

  /**
   The source's queue loop as a function: take the front node, record its
   value, enqueue its children. Absent entries, which the loop never
   enqueues, are passed over.
   */
  function Drain(queue: seq<Tree>): seq<int>
    decreases SizeSum(queue), |queue|
  {
    if queue == [] then []
    else if queue[0].Leaf? then Drain(queue[1..])
    else
      ChildrenSize(queue[0]);
      SizeSumAppend(queue[1..], Children(queue[0]));
      [queue[0].val] + Drain(queue[1..] + Children(queue[0]))
  }

  /** The values of a row of nodes, left to right. */
  function Roots(row: seq<Tree>): seq<int>
  {
    if row == [] then []
    else if row[0].Leaf? then Roots(row[1..])
    else [row[0].val] + Roots(row[1..])
  }

  /** The row below: every existing child of the row, left to right. */
  function Kids(row: seq<Tree>): seq<Tree>
  {
    if row == [] then [] else Children(row[0]) + Kids(row[1..])
  }

  /** Level order stated directly: this row's values, then the rows beneath it. */
  function LevelByLevel(row: seq<Tree>): seq<int>
    decreases SizeSum(row), |row|
  {
    if row == [] then []
    else
      KidsSize(row);
      Roots(row) + LevelByLevel(Kids(row))
  }

  lemma {:induction false} SizeSumAppend(a: seq<Tree>, b: seq<Tree>)
    ensures SizeSum(a + b) == SizeSum(a) + SizeSum(b)
    decreases |a|
  {
    if a == [] {
      assert a + b == b;
    } else {
      assert (a + b)[0] == a[0];
      assert (a + b)[1..] == a[1..] + b;
      SizeSumAppend(a[1..], b);
    }
  }

  lemma {:induction false} QueueBagAppend(a: seq<Tree>, b: seq<Tree>)
    ensures QueueBag(a + b) == QueueBag(a) + QueueBag(b)
    decreases |a|
  {
    if a == [] {
      assert a + b == b;
    } else {
      assert (a + b)[0] == a[0];
      assert (a + b)[1..] == a[1..] + b;
      QueueBagAppend(a[1..], b);
    }
  }

  lemma PresentContents(t: Tree)
    ensures SizeSum(Present(t)) == Size(t)
    ensures QueueBag(Present(t)) == Bag(t)
    ensures AllNodes(Present(t))
  {
    if t.Node? {
      assert [t][1..] == [];
    }
  }

  /** Enqueueing a node's children leaves one node fewer than its subtree. */
  lemma ChildrenSize(t: Tree)
    requires t.Node?
    ensures SizeSum(Children(t)) + 1 == Size(t)
  {
    PresentContents(t.left);
    PresentContents(t.right);
    SizeSumAppend(Present(t.left), Present(t.right));
  }

  /** A node's value together with its children's values make up its whole subtree. */
  lemma {:induction false} ChildrenBag(t: Tree)
    requires t.Node?
    ensures multiset{t.val} + QueueBag(Children(t)) == Bag(t)
  {
    PresentContents(t.left);
    PresentContents(t.right);
    QueueBagAppend(Present(t.left), Present(t.right));
  }

  lemma ChildrenAreNodes(t: Tree)
    ensures AllNodes(Children(t))
  {
    if t.Node? {
      PresentContents(t.left);
      PresentContents(t.right);
    }
  }

  /**
   The row below never holds more nodes than the row, and holds as many
   only when the row has no nodes at all (and then nothing lies below).
   */
  lemma {:induction false} KidsSize(row: seq<Tree>)
    ensures SizeSum(Kids(row)) <= SizeSum(row)
    ensures SizeSum(Kids(row)) == SizeSum(row) ==> Kids(row) == []
  {
    if row != [] {
      KidsSize(row[1..]);
      SizeSumAppend(Children(row[0]), Kids(row[1..]));
      if row[0].Node? {
        ChildrenSize(row[0]);
      }
    }
  }

  /**
   Draining a queue that begins with a row `a` records the row's values and
   leaves the row's children behind whatever followed it.
   */
  lemma {:induction false} DrainRow(a: seq<Tree>, b: seq<Tree>)
    ensures Drain(a + b) == Roots(a) + Drain(b + Kids(a))
    decreases |a|, 1
  {
    if a == [] {
      assert a + b == b && b + Kids(a) == b;
    } else if a[0].Leaf? {
      SkipAbsentInRow(a, b);
    } else {
      TakeNodeInRow(a, b);
    }
  }

  lemma {:induction false} SkipAbsentInRow(a: seq<Tree>, b: seq<Tree>)
    requires a != [] && a[0].Leaf?
    ensures Drain(a + b) == Roots(a) + Drain(b + Kids(a))
    decreases |a|, 0
  {
    var ab := a + b;
    assert ab[0] == a[0] && ab[1..] == a[1..] + b;
    assert Drain(ab) == Drain(a[1..] + b);
    DrainRow(a[1..], b);
    assert Kids(a) == Kids(a[1..]);
  }

  lemma {:induction false} TakeNodeInRow(a: seq<Tree>, b: seq<Tree>)
    requires a != [] && a[0].Node?
    ensures Drain(a + b) == Roots(a) + Drain(b + Kids(a))
    decreases |a|, 0
  {
    var v, rest, c := a[0].val, a[1..], Children(a[0]);
    AppendFront(a, b);
    assert Drain(a + b) == [v] + Drain((rest + b) + c);
    AppendAssoc(rest, b, c);
    DrainRow(rest, b + c);
    AppendAssoc(b, c, Kids(rest));
  }

  lemma AppendFront(a: seq<Tree>, b: seq<Tree>)
    requires a != []
    ensures a + b != [] && (a + b)[0] == a[0] && (a + b)[1..] == a[1..] + b
  {
  }

  lemma AppendAssoc(a: seq<Tree>, b: seq<Tree>, c: seq<Tree>)
    ensures (a + b) + c == a + (b + c)
  {
  }

  /** The queue loop produces the level-by-level order. */
  lemma {:induction false} DrainIsLevelByLevel(row: seq<Tree>)
    ensures Drain(row) == LevelByLevel(row)
    decreases SizeSum(row), |row|
  {
    if row != [] {
      DrainRow(row, []);
      assert row + [] == row && [] + Kids(row) == Kids(row);
      KidsSize(row);
      DrainIsLevelByLevel(Kids(row));
    }
  }

  /** Draining a queue records every node of every queued tree exactly once. */
  lemma {:induction false} DrainVisitsEveryNode(queue: seq<Tree>)
    ensures multiset(Drain(queue)) == QueueBag(queue)
    decreases SizeSum(queue), |queue|
  {
    if queue != [] {
      var t := queue[0];
      if t.Leaf? {
        DrainVisitsEveryNode(queue[1..]);
      } else {
        var next := queue[1..] + Children(t);
        ChildrenSize(t);
        SizeSumAppend(queue[1..], Children(t));
        calc {
          multiset(Drain(queue));
          multiset([t.val] + Drain(next));
          multiset{t.val} + multiset(Drain(next));
          { DrainVisitsEveryNode(next); }
          multiset{t.val} + QueueBag(next);
          { QueueBagAppend(queue[1..], Children(t)); }
          multiset{t.val} + QueueBag(Children(t)) + QueueBag(queue[1..]);
          { ChildrenBag(t); }
          Bag(t) + QueueBag(queue[1..]);
        }
      }
    }
  }

  /**
   `bfs`, with an explicit guard for the empty tree. The result is the
   level-by-level order; it records every node once, the root first, so it
   is a rearrangement of the in-order sequence.
   */
  method Bfs(t: Tree) returns (result: seq<int>)
    ensures t.Leaf? ==> result == []
    ensures result == LevelByLevel([t])
    ensures t.Node? ==> |result| > 0 && result[0] == t.val
    ensures |result| == Size(t)
    ensures multiset(result) == Bag(t) == multiset(Traversal.InOrder(t))
  {
    if t.Leaf? {
      LevelByLevelOfEmpty();
      return [];
    }
    var queue := [t];
    result := [];
    while |queue| > 0
      invariant AllNodes(queue)
      invariant result + Drain(queue) == Drain([t])
      decreases SizeSum(queue)
    {
      ghost var before := queue;
      var current := queue[0];
      VisitFront(queue, result, t);
      queue := queue[1..];
      result := result + [current.val];
      if current.left.Node? {
        queue := queue + [current.left];
      }
      if current.right.Node? {
        queue := queue + [current.right];
      }
      AppendAssoc(before[1..], Present(current.left), Present(current.right));
      assert queue == before[1..] + Children(current);
    }
    BfsContract(t, result);
  }

  /** What one turn of the loop keeps: the values recorded so far followed by what is left to drain. */
  lemma VisitFront(queue: seq<Tree>, result: seq<int>, t: Tree)
    requires queue != [] && AllNodes(queue)
    requires result + Drain(queue) == Drain([t])
    ensures (result + [queue[0].val]) + Drain(queue[1..] + Children(queue[0])) == Drain([t])
    ensures SizeSum(queue[1..] + Children(queue[0])) < SizeSum(queue)
    ensures AllNodes(queue[1..] + Children(queue[0]))
  {
    DrainTakesFront(queue);
  }

  /** One turn of the queue loop, and the queue's node count going down. */
  lemma DrainTakesFront(queue: seq<Tree>)
    requires queue != [] && AllNodes(queue)
    ensures Drain(queue) == [queue[0].val] + Drain(queue[1..] + Children(queue[0]))
    ensures SizeSum(queue[1..] + Children(queue[0])) < SizeSum(queue)
    ensures AllNodes(queue[1..] + Children(queue[0]))
  {
    ChildrenSize(queue[0]);
    SizeSumAppend(queue[1..], Children(queue[0]));
    ChildrenAreNodes(queue[0]);
  }

  /** A row holding only the empty tree has nothing to list. */
  lemma LevelByLevelOfEmpty()
    ensures LevelByLevel([Leaf]) == []
  {
    assert [Leaf][1..] == [];
    assert Kids([Leaf]) == [];
  }

  /** What the loop's final state says about the traversal as a whole. */
  lemma BfsContract(t: Tree, result: seq<int>)
    requires t.Node?
    requires result == Drain([t])
    ensures result == LevelByLevel([t])
    ensures |result| > 0 && result[0] == t.val
    ensures |result| == Size(t)
    ensures multiset(result) == Bag(t) == multiset(Traversal.InOrder(t))
  {
    DrainIsLevelByLevel([t]);
    DrainVisitsEveryNode([t]);
    assert [t][1..] == [];
    assert QueueBag([t]) == Bag(t);
    BagMatchesValues(t);
    Traversal.TraversalsVisitEveryNode(t);
  }

  /**
   The loop exactly as written: the queue is seeded with the root even when
   the root is absent, and reading the value of an absent node is a fault
   (`None`).
   */
  function DrainAsWritten(queue: seq<Tree>): Option<seq<int>>
    decreases SizeSum(queue)
  {
    if queue == [] then Some([])
    else if queue[0].Leaf? then None
    else
      ChildrenSize(queue[0]);
      SizeSumAppend(queue[1..], Children(queue[0]));
      match DrainAsWritten(queue[1..] + Children(queue[0]))
      case None => None
      case Some(rest) => Some([queue[0].val] + rest)
  }

  /** `bfs` as written, starting from the queue `[root]`. */
  function BfsAsWritten(t: Tree): Option<seq<int>>
  {
    DrainAsWritten([t])
  }

  /** As written, `bfs` faults on the empty tree instead of returning `[]`. */
  lemma BfsAsWrittenFaultsOnEmptyTree()
    ensures BfsAsWritten(Leaf) == None
  {
  }

  /** Apart from the empty tree, the guarded traversal and the code as written agree. */
  lemma BfsAsWrittenAgreesOnNonEmpty(t: Tree)
    requires t.Node?
    ensures BfsAsWritten(t) == Some(LevelByLevel([t]))
  {
    DrainAsWrittenAgrees([t]);
    DrainIsLevelByLevel([t]);
  }

  lemma {:induction false} DrainAsWrittenAgrees(queue: seq<Tree>)
    requires AllNodes(queue)
    ensures DrainAsWritten(queue) == Some(Drain(queue))
    decreases SizeSum(queue)
  {
    if queue != [] {
      ChildrenSize(queue[0]);
      SizeSumAppend(queue[1..], Children(queue[0]));
      ChildrenAreNodes(queue[0]);
      DrainAsWrittenAgrees(queue[1..] + Children(queue[0]));
    }
  }
}
