/**
 The worked example: the values 8, 3, 10, 1, 6, 14, 4, 7, 13 inserted in
 that order into an empty tree, and what each operation returns on it.
 */
module Scenario {
  import opened Wrappers
  import opened Trees
  import opened Search
  import opened Insertion
  import opened Traversal
  import opened LevelOrder

  /** The tree the nine insertions build. */
  function Example(): Tree
  {
    Node(
      Node(Node(Leaf, 1, Leaf), 3, Node(Node(Leaf, 4, Leaf), 6, Node(Leaf, 7, Leaf))),
      8,
      Node(Leaf, 10, Node(Node(Leaf, 13, Leaf), 14, Leaf)))
  }

  /** Inserting `v` and then the rest is inserting `[v] + rest`. */
  lemma InsertAllFront(t: Tree, v: int, rest: seq<int>)
    ensures InsertAll(t, [v] + rest) == InsertAll(InsertRecursively(t, v), rest)
  {
    assert ([v] + rest)[0] == v && ([v] + rest)[1..] == rest;
  }

  lemma ExampleIsBuiltByInsertion()
    ensures InsertAll(Leaf, [8, 3, 10, 1, 6, 14, 4, 7, 13]) == Example()
    ensures IsBst(Example())
  {
    var t3 := Node(Node(Leaf, 3, Leaf), 8, Node(Leaf, 10, Leaf));
    var t6 := Node(Node(Node(Leaf, 1, Leaf), 3, Node(Leaf, 6, Leaf)), 8, Node(Leaf, 10, Node(Leaf, 14, Leaf)));
    FirstThreeInsertions();
    NextThreeInsertions();
    LastThreeInsertions();
    InsertAllSplit(Leaf, [8, 3, 10], [1, 6, 14, 4, 7, 13]);
    InsertAllSplit(t3, [1, 6, 14], [4, 7, 13]);
  }

  /** Inserting `a ++ b` is inserting `a`, then `b`. */
  lemma {:induction false} InsertAllSplit(t: Tree, a: seq<int>, b: seq<int>)
    ensures InsertAll(t, a + b) == InsertAll(InsertAll(t, a), b)
    decreases |a|
  {
    if a == [] {
      assert a + b == b;
    } else {
      assert (a + b)[0] == a[0] && (a + b)[1..] == a[1..] + b;
      InsertAllSplit(InsertRecursively(t, a[0]), a[1..], b);
    }
  }

  lemma FirstThreeInsertions()
    ensures InsertAll(Leaf, [8, 3, 10]) == Node(Node(Leaf, 3, Leaf), 8, Node(Leaf, 10, Leaf))
  {
    var t1 := Node(Leaf, 8, Leaf);
    var t2 := Node(Node(Leaf, 3, Leaf), 8, Leaf);
    assert InsertRecursively(Leaf, 8) == t1;
    assert InsertRecursively(t1, 3) == t2;
    InsertAllFront(Leaf, 8, [3, 10]);
    InsertAllFront(t1, 3, [10]);
    InsertAllFront(t2, 10, []);
  }

  lemma NextThreeInsertions()
    ensures InsertAll(Node(Node(Leaf, 3, Leaf), 8, Node(Leaf, 10, Leaf)), [1, 6, 14])
         == Node(Node(Node(Leaf, 1, Leaf), 3, Node(Leaf, 6, Leaf)), 8, Node(Leaf, 10, Node(Leaf, 14, Leaf)))
  {
    var t3 := Node(Node(Leaf, 3, Leaf), 8, Node(Leaf, 10, Leaf));
    var t4 := Node(Node(Node(Leaf, 1, Leaf), 3, Leaf), 8, Node(Leaf, 10, Leaf));
    var t5 := Node(Node(Node(Leaf, 1, Leaf), 3, Node(Leaf, 6, Leaf)), 8, Node(Leaf, 10, Leaf));
    InsertOneAndSix();
    InsertAllFront(t3, 1, [6, 14]);
    InsertAllFront(t4, 6, [14]);
    InsertAllFront(t5, 14, []);
  }

  lemma InsertOneAndSix()
    ensures InsertRecursively(Node(Node(Leaf, 3, Leaf), 8, Node(Leaf, 10, Leaf)), 1)
         == Node(Node(Node(Leaf, 1, Leaf), 3, Leaf), 8, Node(Leaf, 10, Leaf))
    ensures InsertRecursively(Node(Node(Node(Leaf, 1, Leaf), 3, Leaf), 8, Node(Leaf, 10, Leaf)), 6)
         == Node(Node(Node(Leaf, 1, Leaf), 3, Node(Leaf, 6, Leaf)), 8, Node(Leaf, 10, Leaf))
  {
  }

  lemma LastThreeInsertions()
    ensures InsertAll(Node(Node(Node(Leaf, 1, Leaf), 3, Node(Leaf, 6, Leaf)), 8, Node(Leaf, 10, Node(Leaf, 14, Leaf))), [4, 7, 13])
         == Example()
  {
    var n1 := Node(Leaf, 1, Leaf);
    var n4 := Node(Leaf, 4, Leaf);
    var right := Node(Leaf, 10, Node(Leaf, 14, Leaf));
    var t6 := Node(Node(n1, 3, Node(Leaf, 6, Leaf)), 8, right);
    var t7 := Node(Node(n1, 3, Node(n4, 6, Leaf)), 8, right);
    var t8 := Node(Node(n1, 3, Node(n4, 6, Node(Leaf, 7, Leaf))), 8, right);
    assert InsertRecursively(t6, 4) == t7;
    assert InsertRecursively(t7, 7) == t8;
    InsertAllFront(t6, 4, [7, 13]);
    InsertAllFront(t7, 7, [13]);
    InsertAllFront(t8, 13, []);
  }

  lemma ExampleInOrder()
    ensures InOrder(Example()) == [1, 3, 4, 6, 7, 8, 10, 13, 14]
  {
    var six := Node(Node(Leaf, 4, Leaf), 6, Node(Leaf, 7, Leaf));
    var fourteen := Node(Node(Leaf, 13, Leaf), 14, Leaf);
    assert InOrder(six) == [4, 6, 7];
    assert InOrder(Node(Node(Leaf, 1, Leaf), 3, six)) == [1, 3, 4, 6, 7];
    assert InOrder(fourteen) == [13, 14];
    assert InOrder(Node(Leaf, 10, fourteen)) == [10, 13, 14];
  }

  lemma ExamplePreOrder()
    ensures PreOrder(Example()) == [8, 3, 1, 6, 4, 7, 10, 14, 13]
  {
    var six := Node(Node(Leaf, 4, Leaf), 6, Node(Leaf, 7, Leaf));
    var fourteen := Node(Node(Leaf, 13, Leaf), 14, Leaf);
    assert PreOrder(six) == [6, 4, 7];
    assert PreOrder(Node(Node(Leaf, 1, Leaf), 3, six)) == [3, 1, 6, 4, 7];
    assert PreOrder(fourteen) == [14, 13];
    assert PreOrder(Node(Leaf, 10, fourteen)) == [10, 14, 13];
  }

  lemma ExamplePostOrder()
    ensures PostOrder(Example()) == [1, 4, 7, 6, 3, 13, 14, 10, 8]
  {
    var six := Node(Node(Leaf, 4, Leaf), 6, Node(Leaf, 7, Leaf));
    var fourteen := Node(Node(Leaf, 13, Leaf), 14, Leaf);
    assert PostOrder(six) == [4, 7, 6];
    assert PostOrder(Node(Node(Leaf, 1, Leaf), 3, six)) == [1, 4, 7, 6, 3];
    assert PostOrder(fourteen) == [13, 14];
    assert PostOrder(Node(Leaf, 10, fourteen)) == [13, 14, 10];
  }

  lemma ExampleLevelOrder()
    ensures LevelByLevel([Example()]) == [8, 3, 10, 1, 6, 14, 4, 7, 13]
  {
    LevelsOfExample(Example());
  }

  /** The example's rows, walked down one level at a time. */
  lemma LevelsOfExample(t: Tree)
    requires t == Example()
    ensures LevelByLevel([t]) == [8, 3, 10, 1, 6, 14, 4, 7, 13]
  {
    var three, ten := t.left, t.right;
    var one, six, fourteen := three.left, three.right, ten.right;
    var four, seven, thirteen := six.left, six.right, fourteen.left;
    var r1, r2, r3 := [three, ten], [one, six, fourteen], [four, seven, thirteen];
    RowOfOne(t);
    RowOfTwo(three, ten);
    RowOfThree(one, six, fourteen);
    RowOfThree(four, seven, thirteen);
    assert Children(t) == r1;
    assert Children(three) + Children(ten) == r2;
    assert Children(one) + Children(six) + Children(fourteen) == r3;
    assert Children(four) + Children(seven) + Children(thirteen) == [];
    calc {
      LevelByLevel([t]);
      [8] + LevelByLevel(r1);
      [8] + ([3, 10] + LevelByLevel(r2));
      [8] + ([3, 10] + ([1, 6, 14] + LevelByLevel(r3)));
      [8] + ([3, 10] + ([1, 6, 14] + ([4, 7, 13] + LevelByLevel([]))));
    }
  }

  lemma RowOfOne(a: Tree)
    requires a.Node?
    ensures Roots([a]) == [a.val] && Kids([a]) == Children(a)
  {
    assert [a][1..] == [];
  }

  lemma RowOfTwo(a: Tree, b: Tree)
    requires a.Node? && b.Node?
    ensures Roots([a, b]) == [a.val, b.val] && Kids([a, b]) == Children(a) + Children(b)
  {
    assert [a, b][1..] == [b];
    RowOfOne(b);
  }

  lemma RowOfThree(a: Tree, b: Tree, c: Tree)
    requires a.Node? && b.Node? && c.Node?
    ensures Roots([a, b, c]) == [a.val, b.val, c.val]
    ensures Kids([a, b, c]) == Children(a) + Children(b) + Children(c)
  {
    assert [a, b, c][1..] == [b, c];
    RowOfTwo(b, c);
  }

  lemma ExampleSearches()
    ensures FindRecursively(Example(), 6) == Some(Node(Node(Leaf, 4, Leaf), 6, Node(Leaf, 7, Leaf)))
    ensures FindRecursively(Example(), 99) == None
  {
  }
}
