/** The four traversals of BALST (BALST.java:331-457). The depth-first walks
    append keys to one shared list as they go; here the list is threaded
    through as a sequence that each call extends. The level-order walk drains
    a first-in-first-out queue seeded with the root. */
module Traversals {
  import opened Trees

  /** Pre-order keys: node, then left subtree, then right subtree. */
  function PreOrder<V>(t: Tree<V>): seq<int>
  {
    match t
    case Nil => []
    case Node(l, k, _, r) => [k] + PreOrder(l) + PreOrder(r)
  }

  /** Post-order keys: left subtree, then right subtree, then node. */
  function PostOrder<V>(t: Tree<V>): seq<int>
  {
    match t
    case Nil => []
    case Node(l, k, _, r) => PostOrder(l) + PostOrder(r) + [k]
  }

  /** In-order walk appending to list (getInOrderTraversal helper). */
  method AppendInOrder<V>(t: Tree<V>, list: seq<int>) returns (out: seq<int>)
    ensures out == list + InOrder(t)
    decreases t
  {
    out := list;
    if t.Node? {
      out := AppendInOrder(t.left, out);
      out := out + [t.key];
      out := AppendInOrder(t.right, out);
    }
  }

  /** Pre-order walk appending to list (getPreOrderTraversal helper). */
  method AppendPreOrder<V>(t: Tree<V>, list: seq<int>) returns (out: seq<int>)
    ensures out == list + PreOrder(t)
    decreases t
  {
    out := list;
    if t.Node? {
      out := out + [t.key];
      out := AppendPreOrder(t.left, out);
      out := AppendPreOrder(t.right, out);
    }
  }

  /** Post-order walk appending to list (getPostOrderTraversal helper). */
  method AppendPostOrder<V>(t: Tree<V>, list: seq<int>) returns (out: seq<int>)
    ensures out == list + PostOrder(t)
    decreases t
  {
    out := list;
    if t.Node? {
      out := AppendPostOrder(t.left, out);
      out := AppendPostOrder(t.right, out);
      out := out + [t.key];
    }
  }

  /** Total number of nodes in the subtrees waiting in a queue. */
  function QueueSize<V>(q: seq<Tree<V>>): nat
  {
    if q == [] then 0 else Size(q[0]) + QueueSize(q[1..])
  }

  /** All the keys held by the subtrees waiting in a queue, with
      multiplicity. */
  function QueueKeys<V>(q: seq<Tree<V>>): multiset<int>
  {
    if q == [] then multiset{} else multiset(InOrder(q[0])) + QueueKeys(q[1..])
  }

  lemma {:induction false} QueueAppend<V>(a: seq<Tree<V>>, b: seq<Tree<V>>)
    ensures QueueSize(a + b) == QueueSize(a) + QueueSize(b)
    ensures QueueKeys(a + b) == QueueKeys(a) + QueueKeys(b)
    decreases |a|
  {
    if a == [] {
      assert a + b == b;
    } else {
      assert (a + b)[1..] == a[1..] + b;
      QueueAppend(a[1..], b);
    }
  }

  /** The queue slot a child takes: the source enqueues only non-empty
      children. */
  function Enqueued<V>(t: Tree<V>): seq<Tree<V>>
  {
    if t.Nil? then [] else [t]
  }

  /** A queue slot holds exactly the nodes and keys of its subtree. */
  lemma QueueEnqueued<V>(t: Tree<V>)
    ensures QueueSize(Enqueued(t)) == Size(t)
    ensures QueueKeys(Enqueued(t)) == multiset(InOrder(t))
  {
    if t.Node? {
      assert [t][1..] == [];
    }
  }

  /** Enqueueing the non-empty children of a node behind rest adds exactly
      their nodes and keys to the queue. */
  lemma QueueChildren<V>(rest: seq<Tree<V>>, l: Tree<V>, r: Tree<V>)
    ensures QueueSize(rest + Enqueued(l) + Enqueued(r)) == QueueSize(rest) + Size(l) + Size(r)
    ensures QueueKeys(rest + Enqueued(l) + Enqueued(r)) ==
      QueueKeys(rest) + multiset(InOrder(l)) + multiset(InOrder(r))
  {
    QueueAppend(rest, Enqueued(l));
    QueueAppend(rest + Enqueued(l), Enqueued(r));
    QueueEnqueued(l);
    QueueEnqueued(r);
  }

  /** The keys listed by draining queue q breadth-first: an empty subtree
      taken from the queue lists nothing, a node lists its key and enqueues
      its non-empty children behind everything already waiting. */
  function LevelOrderFrom<V>(q: seq<Tree<V>>): seq<int>
    decreases QueueSize(q), |q|
  {
    if q == [] then []
    else
      var rest := q[1..];
      match q[0]
      case Nil => LevelOrderFrom(rest)
      case Node(l, k, _, r) =>
        QueueChildren(rest, l, r);
        [k] + LevelOrderFrom(rest + Enqueued(l) + Enqueued(r))
  }

  /** Level-order keys of a tree: the queue starts with the root. */
  function LevelOrder<V>(t: Tree<V>): seq<int>
  {
    LevelOrderFrom([t])
  }

  /** One step of draining a non-empty queue: what its head contributes and
      what is left to drain. */
  lemma LevelOrderStep<V>(q: seq<Tree<V>>)
    requires q != []
    ensures q[0].Nil? ==> LevelOrderFrom(q) == LevelOrderFrom(q[1..]) && QueueSize(q[1..]) == QueueSize(q)
    ensures q[0].Node? ==>
      LevelOrderFrom(q) == [q[0].key] + LevelOrderFrom(q[1..] + Enqueued(q[0].left) + Enqueued(q[0].right)) &&
      QueueSize(q[1..] + Enqueued(q[0].left) + Enqueued(q[0].right)) < QueueSize(q)
  {
    if q[0].Node? {
      QueueChildren(q[1..], q[0].left, q[0].right);
    }
  }

  /** The queue-draining loop of getLevelOrderTraversal. */
  method LevelOrderTraversal<V>(node: Tree<V>) returns (list: seq<int>)
    ensures list == LevelOrder(node)
    ensures list == Levels(node, 0, Height(node))
  {
    list := [];
    var queue := [node];
    while |queue| > 0
      invariant list + LevelOrderFrom(queue) == LevelOrder(node)
      decreases QueueSize(queue), |queue|
    {
      LevelOrderStep(queue);
      var temp := queue[0];
      queue := queue[1..];
      if temp.Node? {
        ghost var rest := queue;
        list := list + [temp.key];
        if temp.left.Node? {
          queue := queue + [temp.left];
        }
        if temp.right.Node? {
          queue := queue + [temp.right];
        }
        assert queue == rest + Enqueued(temp.left) + Enqueued(temp.right);
      }
    }
    LevelOrderIsBreadthFirst(node);
  }

  // ---------------------------------------------------------------------
  // What each traversal lists
  // ---------------------------------------------------------------------

  /** Draining a queue lists every key of every waiting subtree exactly
      once. */
  lemma {:induction false} LevelOrderFromKeys<V>(q: seq<Tree<V>>)
    ensures multiset(LevelOrderFrom(q)) == QueueKeys(q)
    decreases QueueSize(q), |q|
  {
    if q != [] {
      var rest := q[1..];
      match q[0]
      case Nil =>
        LevelOrderFromKeys(rest);
      case Node(l, k, _, r) =>
        QueueChildren(rest, l, r);
        LevelOrderFromKeys(rest + Enqueued(l) + Enqueued(r));
    }
  }

  /** Pre-order lists the root first and then exactly the keys of the
      in-order traversal. */
  lemma {:induction false} PreOrderIsPermutation<V>(t: Tree<V>)
    ensures multiset(PreOrder(t)) == multiset(InOrder(t))
    ensures t.Node? ==> PreOrder(t)[0] == t.key
  {
    match t
    case Nil =>
    case Node(l, k, v, r) =>
      PreOrderIsPermutation(l);
      PreOrderIsPermutation(r);
  }

  /** Post-order lists exactly the keys of the in-order traversal and ends
      with the root. */
  lemma {:induction false} PostOrderIsPermutation<V>(t: Tree<V>)
    ensures multiset(PostOrder(t)) == multiset(InOrder(t))
    ensures t.Node? ==> PostOrder(t)[|PostOrder(t)| - 1] == t.key
  {
    match t
    case Nil =>
    case Node(l, k, v, r) =>
      PostOrderIsPermutation(l);
      PostOrderIsPermutation(r);
      assert PostOrder(t) == PostOrder(l) + PostOrder(r) + [k];
      assert InOrder(t) == InOrder(l) + [k] + InOrder(r);
  }

  /** Level-order starts with the root, lists exactly the keys of the
      in-order traversal and has one entry per node. */
  lemma LevelOrderIsPermutation<V>(t: Tree<V>)
    ensures multiset(LevelOrder(t)) == multiset(InOrder(t))
    ensures |LevelOrder(t)| == Size(t)
    ensures t.Node? ==> LevelOrder(t)[0] == t.key
  {
    LevelOrderFromKeys([t]);
    assert [t][1..] == [];
    assert QueueKeys([t]) == multiset(InOrder(t));
    InOrderOfElements(t);
    assert |LevelOrder(t)| == |multiset(LevelOrder(t))|;
    assert |InOrder(t)| == |multiset(InOrder(t))|;
  }

  // ---------------------------------------------------------------------
  // Level-order lists the keys depth by depth
  // ---------------------------------------------------------------------

  /** The keys at depth d of t (the root is at depth 0), left to right. */
  function Level<V>(t: Tree<V>, d: nat): seq<int>
  {
    match t
    case Nil => []
    case Node(l, k, _, r) => if d == 0 then [k] else Level(l, d - 1) + Level(r, d - 1)
  }

  /** The keys at depths d, d + 1, ..., n - 1 of t, one depth after the
      other. */
  function Levels<V>(t: Tree<V>, d: nat, n: nat): seq<int>
    decreases n - d
  {
    if d >= n then [] else Level(t, d) + Levels(t, d + 1, n)
  }

  /** The keys at depth d across a sequence of subtrees, left to right. */
  function ForestLevel<V>(f: seq<Tree<V>>, d: nat): seq<int>
  {
    if f == [] then [] else Level(f[0], d) + ForestLevel(f[1..], d)
  }

  function ForestLevels<V>(f: seq<Tree<V>>, d: nat, n: nat): seq<int>
    decreases n - d
  {
    if d >= n then [] else ForestLevel(f, d) + ForestLevels(f, d + 1, n)
  }

  /** The queue slots the children of one subtree take. */
  function ChildSlots<V>(t: Tree<V>): seq<Tree<V>>
  {
    if t.Nil? then [] else Enqueued(t.left) + Enqueued(t.right)
  }

  /** The non-empty children of a sequence of subtrees, left to right: what
      draining the sequence from a queue enqueues. */
  function Children<V>(f: seq<Tree<V>>): seq<Tree<V>>
  {
    if f == [] then [] else ChildSlots(f[0]) + Children(f[1..])
  }

  lemma {:induction false} ForestLevelAppend<V>(a: seq<Tree<V>>, b: seq<Tree<V>>, d: nat)
    ensures ForestLevel(a + b, d) == ForestLevel(a, d) + ForestLevel(b, d)
    decreases |a|
  {
    if a == [] {
      assert a + b == b;
    } else {
      assert (a + b)[1..] == a[1..] + b;
      ForestLevelAppend(a[1..], b, d);
    }
  }

  lemma ForestLevelEnqueued<V>(t: Tree<V>, d: nat)
    ensures ForestLevel(Enqueued(t), d) == Level(t, d)
  {
    if t.Node? {
      assert [t][1..] == [];
    }
  }

  /** Taking the head x of a ahead of b off the queue lists the depth-0
      key of x and enqueues its children behind b. */
  lemma DrainHead<V>(a: seq<Tree<V>>, b: seq<Tree<V>>)
    requires a != []
    ensures LevelOrderFrom(a + b) == Level(a[0], 0) + LevelOrderFrom(a[1..] + (b + ChildSlots(a[0])))
  {
    var q := a + b;
    assert q[0] == a[0] && q[1..] == a[1..] + b;
    LevelOrderStep(q);
    var x := a[0];
    if x.Node? {
      assert q[1..] + Enqueued(x.left) + Enqueued(x.right) == a[1..] + (b + ChildSlots(x));
    } else {
      assert b + ChildSlots(x) == b;
    }
  }

  /** Draining the subtrees a ahead of b lists the roots of a and leaves b
      followed by the children of a in the queue. */
  lemma {:induction false} DrainPrefix<V>(a: seq<Tree<V>>, b: seq<Tree<V>>)
    ensures LevelOrderFrom(a + b) == ForestLevel(a, 0) + LevelOrderFrom(b + Children(a))
    decreases |a|
  {
    if a == [] {
      assert a + b == b && b + Children(a) == b;
    } else {
      var c := ChildSlots(a[0]);
      assert LevelOrderFrom(a + b) == Level(a[0], 0) + LevelOrderFrom(a[1..] + (b + c)) by {
        DrainHead(a, b);
      }
      assert LevelOrderFrom(a[1..] + (b + c)) ==
        ForestLevel(a[1..], 0) + LevelOrderFrom(b + Children(a)) by {
        DrainPrefix(a[1..], b + c);
        assert b + c + Children(a[1..]) == b + Children(a);
      }
      assert ForestLevel(a, 0) == Level(a[0], 0) + ForestLevel(a[1..], 0);
    }
  }

  /** Depth d of the children is depth d + 1 of the parents. */
  lemma {:induction false} ChildrenLevel<V>(f: seq<Tree<V>>, d: nat)
    ensures ForestLevel(Children(f), d) == ForestLevel(f, d + 1)
    decreases |f|
  {
    if f != [] {
      ChildrenLevel(f[1..], d);
      var x := f[0];
      if x.Node? {
        var c := ChildSlots(x);
        ForestLevelAppend(c, Children(f[1..]), d);
        ForestLevelAppend(Enqueued(x.left), Enqueued(x.right), d);
        ForestLevelEnqueued(x.left, d);
        ForestLevelEnqueued(x.right, d);
        assert Level(x, d + 1) == Level(x.left, d) + Level(x.right, d);
      } else {
        assert Children(f) == Children(f[1..]);
      }
    }
  }

  lemma {:induction false} ChildrenLevels<V>(f: seq<Tree<V>>, d: nat, n: nat)
    ensures ForestLevels(Children(f), d, n) == ForestLevels(f, d + 1, n + 1)
    decreases n - d
  {
    if d < n {
      ChildrenLevel(f, d);
      ChildrenLevels(f, d + 1, n);
    }
  }

  /** Taking the roots off a sequence of subtrees leaves their children,
      which hold one node fewer per root. */
  lemma {:induction false} ChildrenSize<V>(f: seq<Tree<V>>)
    ensures QueueSize(Children(f)) + |ForestLevel(f, 0)| == QueueSize(f)
    decreases |f|
  {
    if f != [] {
      ChildrenSize(f[1..]);
      var x := f[0];
      if x.Node? {
        var c := ChildSlots(x);
        assert QueueSize(Children(f)) == Size(x.left) + Size(x.right) + QueueSize(Children(f[1..])) by {
          assert Children(f) == c + Children(f[1..]);
          QueueAppend(c, Children(f[1..]));
          QueueAppend(Enqueued(x.left), Enqueued(x.right));
          QueueEnqueued(x.left);
          QueueEnqueued(x.right);
        }
        assert ForestLevel(f, 0) == [x.key] + ForestLevel(f[1..], 0);
      } else {
        assert Children(f) == Children(f[1..]);
        assert ForestLevel(f, 0) == ForestLevel(f[1..], 0);
      }
    }
  }

  /** A sequence of subtrees holding any node has a root at depth 0. */
  lemma {:induction false} RootsPresent<V>(f: seq<Tree<V>>)
    requires QueueSize(f) > 0
    ensures ForestLevel(f, 0) != []
    decreases |f|
  {
    if f[0].Nil? {
      RootsPresent(f[1..]);
      assert ForestLevel(f, 0) == ForestLevel(f[1..], 0);
    } else {
      assert ForestLevel(f, 0) == [f[0].key] + ForestLevel(f[1..], 0);
    }
  }

  /** A sequence of empty slots lists nothing. */
  lemma {:induction false} EmptyForest<V>(f: seq<Tree<V>>)
    requires QueueSize(f) == 0
    ensures LevelOrderFrom(f) == []
    decreases |f|
  {
    if f != [] {
      LevelOrderStep(f);
      EmptyForest(f[1..]);
    }
  }

  /** One level of draining: if the children of f drain level by level,
      so does f. */
  lemma ByLevelsStep<V>(f: seq<Tree<V>>, n: nat)
    requires n > 0
    requires LevelOrderFrom(Children(f)) == ForestLevels(Children(f), 0, n - 1)
    ensures LevelOrderFrom(f) == ForestLevels(f, 0, n)
  {
    var c := Children(f);
    assert LevelOrderFrom(f) == ForestLevel(f, 0) + LevelOrderFrom(c) by {
      DrainPrefix(f, []);
      assert f + [] == f && [] + c == c;
    }
    assert ForestLevels(c, 0, n - 1) == ForestLevels(f, 1, n) by {
      ChildrenLevels(f, 0, n - 1);
    }
  }

  /** Draining a queue lists its depth-0 keys, then its depth-1 keys, and so
      on, for as many depths as the queue holds nodes. */
  lemma {:induction false} LevelOrderFromByLevels<V>(f: seq<Tree<V>>, n: nat)
    requires QueueSize(f) <= n
    ensures LevelOrderFrom(f) == ForestLevels(f, 0, n)
    decreases QueueSize(f)
  {
    if QueueSize(f) == 0 {
      EmptyForest(f);
      EmptyForestLevels(f, 0, n);
    } else {
      assert QueueSize(Children(f)) < QueueSize(f) by {
        ChildrenSize(f);
        RootsPresent(f);
      }
      LevelOrderFromByLevels(Children(f), n - 1);
      ByLevelsStep(f, n);
    }
  }

  lemma {:induction false} EmptyForestLevels<V>(f: seq<Tree<V>>, d: nat, n: nat)
    requires QueueSize(f) == 0
    ensures ForestLevels(f, d, n) == []
    decreases n - d
  {
    if d < n {
      assert ForestLevel(f, d) == [] by {
        EmptyForestLevel(f, d);
      }
      EmptyForestLevels(f, d + 1, n);
    }
  }

  lemma {:induction false} EmptyForestLevel<V>(f: seq<Tree<V>>, d: nat)
    requires QueueSize(f) == 0
    ensures ForestLevel(f, d) == []
    decreases |f|
  {
    if f != [] {
      EmptyForestLevel(f[1..], d);
    }
  }

  lemma {:induction false} SingleForestLevels<V>(t: Tree<V>, d: nat, n: nat)
    ensures ForestLevels([t], d, n) == Levels(t, d, n)
    decreases n - d
  {
    if d < n {
      assert [t][1..] == [];
      assert ForestLevel([t], d) == Level(t, d) + ForestLevel([t][1..], d);
      SingleForestLevels(t, d + 1, n);
    }
  }

  /** A tree has no keys at or below its height. */
  lemma {:induction false} LevelBeyondHeight<V>(t: Tree<V>, d: nat)
    requires d >= Height(t)
    ensures Level(t, d) == []
  {
    match t
    case Nil =>
    case Node(l, _, _, r) =>
      LevelBeyondHeight(l, d - 1);
      LevelBeyondHeight(r, d - 1);
  }

  lemma {:induction false} LevelsBeyondHeight<V>(t: Tree<V>, d: nat, n: nat)
    requires d >= Height(t)
    ensures Levels(t, d, n) == []
    decreases n - d
  {
    if d < n {
      LevelBeyondHeight(t, d);
      LevelsBeyondHeight(t, d + 1, n);
    }
  }

  lemma {:induction false} LevelsUpToHeight<V>(t: Tree<V>, d: nat, n: nat)
    requires d <= Height(t) <= n
    ensures Levels(t, d, n) == Levels(t, d, Height(t))
    decreases Height(t) - d
  {
    if d == Height(t) {
      LevelsBeyondHeight(t, d, n);
    } else {
      LevelsUpToHeight(t, d + 1, n);
    }
  }

  /** Level-order is breadth-first: the keys at depth 0, then those at
      depth 1, and so on down to the deepest level, each level left to
      right. */
  lemma LevelOrderIsBreadthFirst<V>(t: Tree<V>)
    ensures LevelOrder(t) == Levels(t, 0, Height(t))
  {
    assert [t][1..] == [];
    assert QueueSize([t]) == Size(t);
    LevelOrderFromByLevels([t], Size(t));
    SingleForestLevels(t, 0, Size(t));
    LevelsUpToHeight(t, 0, Size(t));
  }

  /** On a BST the in-order traversal is strictly ascending and lists each
      stored key once: its length is the number of keys. */
  lemma InOrderSortedOnBst<V>(t: Tree<V>)
    requires Bst(t)
    ensures Ascending(InOrder(t))
    ensures |InOrder(t)| == Size(t) == |Keys(t)|
    ensures forall x :: x in InOrder(t) <==> x in Keys(t)
  {
    BstIffAscending(t);
    InOrderOfElements(t);
    BstSizeIsKeyCount(t);
    InOrderKeys(t);
  }
}
