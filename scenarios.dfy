/** Small insertion scenarios for the public insert as the source writes it
    (BALST.java:472-481), each key stored as its own value. */
module Scenarios {
  import opened Wrappers
  import opened Trees
  import opened Balancing
  import opened Mutation
  import opened AvlBalance

  /** Insert key (as its own value) and keep the tree unchanged when the key
      is already present, as a caller catching DuplicateKey would. */
  function PutKey(t: Tree<int>, key: int): (r: Tree<int>)
    ensures Keys(r) == Keys(t) + {key}
  {
    match Put(t, key, key)
    case Ok(u) =>
      RebalanceKeepsContent(InsertNode(t, key, key).value);
      u
    case Err(_) => t
  }

  function Leaf(key: int): Tree<int>
  {
    Node(Nil, key, key, Nil)
  }

  /** When the plain insertion already leaves an AVL tree, the rebalancing
      pass changes nothing. */
  lemma PutWithoutRotation(t: Tree<int>, key: int)
    requires InsertNode(t, key, key).Ok? && Avl(InsertNode(t, key, key).value)
    ensures PutKey(t, key) == InsertNode(t, key, key).value
  {
    AvlIsFixpoint(InsertNode(t, key, key).value);
  }

  /** The balanced tree of 10, 20 and 30. */
  function Balanced3(): Tree<int>
  {
    Node(Leaf(10), 20, 20, Leaf(30))
  }

  /** Two keys in, with no rotation: the first becomes the root and the
      second its child. */
  lemma TwoKeys(first: int, second: int)
    requires first != second
    ensures PutKey(PutKey(Nil, first), second) ==
      if second < first then Node(Leaf(second), first, first, Nil) else Node(Nil, first, first, Leaf(second))
  {
    PutStep(Nil, first, Leaf(first));
    var t2 := if second < first then Node(Leaf(second), first, first, Nil) else Node(Nil, first, first, Leaf(second));
    PutStep(Leaf(first), second, t2);
  }

  /** Ascending insertion: a single left rotation at the root. */
  lemma InsertAscending()
    ensures PutKey(PutKey(PutKey(Nil, 10), 20), 30) == Balanced3()
  {
    TwoKeys(10, 20);
    RotateLeftAtRoot();
  }

  lemma RotateLeftAtRoot()
    ensures PutKey(Node(Nil, 10, 10, Leaf(20)), 30) == Balanced3()
  {
    var u := Node(Nil, 10, 10, Node(Nil, 20, 20, Leaf(30)));
    assert InsertNode(Node(Nil, 10, 10, Leaf(20)), 30, 30) == Ok(u);
    AvlIsFixpoint(u.right);
    assert BalanceFactor(u) == -2 && BalanceFactor(u.right) == -1;
  }

  /** Descending insertion: a single right rotation at the root. */
  lemma InsertDescending()
    ensures PutKey(PutKey(PutKey(Nil, 30), 20), 10) == Balanced3()
  {
    TwoKeys(30, 20);
    RotateRightAtRoot();
  }

  lemma RotateRightAtRoot()
    ensures PutKey(Node(Leaf(20), 30, 30, Nil), 10) == Balanced3()
  {
    var u := Node(Node(Leaf(10), 20, 20, Nil), 30, 30, Nil);
    assert InsertNode(Node(Leaf(20), 30, 30, Nil), 10, 10) == Ok(u);
    AvlIsFixpoint(u.left);
    assert BalanceFactor(u) == 2 && BalanceFactor(u.left) == 1;
  }

  /** 10, 30, 20: a right-left double rotation at the root. */
  lemma InsertRightLeft()
    ensures PutKey(PutKey(PutKey(Nil, 10), 30), 20) == Balanced3()
  {
    TwoKeys(10, 30);
    RotateRightLeftAtRoot();
  }

  lemma RotateRightLeftAtRoot()
    ensures PutKey(Node(Nil, 10, 10, Leaf(30)), 20) == Balanced3()
  {
    var u := Node(Nil, 10, 10, Node(Leaf(20), 30, 30, Nil));
    assert InsertNode(Node(Nil, 10, 10, Leaf(30)), 20, 20) == Ok(u);
    AvlIsFixpoint(u.right);
    assert BalanceFactor(u) == -2 && BalanceFactor(u.right) == 1;
  }

  /** 30, 10, 20: a left-right double rotation at the root. */
  lemma InsertLeftRight()
    ensures PutKey(PutKey(PutKey(Nil, 30), 10), 20) == Balanced3()
  {
    TwoKeys(30, 10);
    RotateLeftRightAtRoot();
  }

  lemma RotateLeftRightAtRoot()
    ensures PutKey(Node(Leaf(10), 30, 30, Nil), 20) == Balanced3()
  {
    var u := Node(Node(Nil, 10, 10, Leaf(20)), 30, 30, Nil);
    assert InsertNode(Node(Leaf(10), 30, 30, Nil), 20, 20) == Ok(u);
    AvlIsFixpoint(u.left);
    assert BalanceFactor(u) == 2 && BalanceFactor(u.left) == -1;
  }

  /** Inserting a stored key a second time fails with DuplicateKey. */
  lemma InsertDuplicate()
    ensures Put(Balanced3(), 20, 0) == Err(DuplicateKey)
  {
  }

  /** The tree after inserting 5, 2, 6 and 1. */
  function SampleStage1(): Tree<int>
  {
    Node(Node(Leaf(1), 2, 2, Nil), 5, 5, Leaf(6))
  }

  /** The tree after further inserting 3 and 7. */
  function SampleStage2(): Tree<int>
  {
    Node(Node(Leaf(1), 2, 2, Leaf(3)), 5, 5, Node(Nil, 6, 6, Leaf(7)))
  }

  /** One insertion that needs no rotation. */
  lemma PutStep(t: Tree<int>, key: int, next: Tree<int>)
    requires InsertNode(t, key, key) == Ok(next) && Avl(next)
    ensures PutKey(t, key) == next
  {
    PutWithoutRotation(t, key);
  }

  /** Insertion below the left child of a node. */
  lemma InsertBelowLeft(l: Tree<int>, k: int, r: Tree<int>, key: int, l2: Tree<int>)
    requires key < k && InsertNode(l, key, key) == Ok(l2)
    ensures InsertNode(Node(l, k, k, r), key, key) == Ok(Node(l2, k, k, r))
  {
  }

  /** A node over two AVL subtrees whose heights differ by at most one. */
  lemma AvlNode(l: Tree<int>, k: int, r: Tree<int>)
    requires Avl(l) && Avl(r) && -1 <= Height(l) - Height(r) <= 1
    ensures Avl(Node(l, k, k, r))
    ensures Height(Node(l, k, k, r)) == 1 + (if Height(l) > Height(r) then Height(l) else Height(r))
  {
  }

  lemma SampleStep1()
    ensures PutKey(PutKey(Nil, 5), 2) == Node(Leaf(2), 5, 5, Nil)
  {
    PutStep(Nil, 5, Leaf(5));
    PutStep(Leaf(5), 2, Node(Leaf(2), 5, 5, Nil));
  }

  lemma SampleStep2()
    ensures PutKey(Node(Leaf(2), 5, 5, Nil), 6) == Node(Leaf(2), 5, 5, Leaf(6))
  {
    PutStep(Node(Leaf(2), 5, 5, Nil), 6, Node(Leaf(2), 5, 5, Leaf(6)));
  }

  lemma SampleStep3()
    ensures PutKey(Node(Leaf(2), 5, 5, Leaf(6)), 1) == SampleStage1()
  {
    var t3 := Node(Leaf(2), 5, 5, Leaf(6));
    assert InsertNode(t3, 1, 1) == Ok(SampleStage1());
    assert Height(SampleStage1().left) == 2;
    PutStep(t3, 1, SampleStage1());
  }

  lemma SampleStep4()
    ensures PutKey(SampleStage1(), 3) == Node(Node(Leaf(1), 2, 2, Leaf(3)), 5, 5, Leaf(6))
  {
    var t5 := Node(Node(Leaf(1), 2, 2, Leaf(3)), 5, 5, Leaf(6));
    assert InsertNode(SampleStage1(), 3, 3) == Ok(t5);
    assert Height(t5.left) == 2;
    PutStep(SampleStage1(), 3, t5);
  }

  lemma SampleStep5()
    ensures PutKey(Node(Node(Leaf(1), 2, 2, Leaf(3)), 5, 5, Leaf(6)), 7) == SampleStage2()
  {
    var left := Node(Leaf(1), 2, 2, Leaf(3));
    var right := Node(Nil, 6, 6, Leaf(7));
    assert InsertNode(Leaf(6), 7, 7) == Ok(right);
    assert InsertNode(Node(left, 5, 5, Leaf(6)), 7, 7) == Ok(SampleStage2());
    assert Avl(left) && Height(left) == 2;
    assert Avl(right) && Height(right) == 2;
    PutStep(Node(left, 5, 5, Leaf(6)), 7, SampleStage2());
  }

  lemma SampleStep6()
    ensures PutKey(SampleStage2(), 0) == Node(Node(Node(Leaf(0), 1, 1, Nil), 2, 2, Leaf(3)), 5, 5, Node(Nil, 6, 6, Leaf(7)))
  {
    var a := Node(Leaf(0), 1, 1, Nil);
    var left := Node(a, 2, 2, Leaf(3));
    var right := Node(Nil, 6, 6, Leaf(7));
    var t7 := Node(left, 5, 5, right);
    assert InsertNode(Leaf(1), 0, 0) == Ok(a);
    InsertBelowLeft(Leaf(1), 2, Leaf(3), 0, a);
    InsertBelowLeft(SampleStage2().left, 5, right, 0, left);
    AvlNode(Leaf(0), 1, Nil);
    AvlNode(a, 2, Leaf(3));
    AvlNode(Nil, 6, Leaf(7));
    AvlNode(left, 5, right);
    PutStep(SampleStage2(), 0, t7);
  }

  lemma SampleStep7()
    ensures PutKey(Node(Node(Node(Leaf(0), 1, 1, Nil), 2, 2, Leaf(3)), 5, 5, Node(Nil, 6, 6, Leaf(7))), 4) == SampleTree()
  {
    var t7 := Node(Node(Node(Leaf(0), 1, 1, Nil), 2, 2, Leaf(3)), 5, 5, Node(Nil, 6, 6, Leaf(7)));
    var t8 := SampleTree();
    assert InsertNode(t7, 4, 4) == Ok(t8);
    SampleTreeIsAvlBst();
    PutStep(t7, 4, t8);
  }

  /** Inserting 5, 2, 6, 1, 3, 7, 0, 4 builds SampleTree without a single
      rotation, so the tree that the source's removal unbalances is
      reachable through the public insert alone. */
  lemma SampleTreeReachable()
    ensures PutKey(PutKey(PutKey(PutKey(PutKey(PutKey(PutKey(PutKey(
      Nil, 5), 2), 6), 1), 3), 7), 0), 4) == SampleTree()
  {
    SampleStep1();
    SampleStep2();
    SampleStep3();
    SampleStep4();
    SampleStep5();
    SampleStep6();
    SampleStep7();
  }
}
