/** The public insert and remove of BALST as tree-to-tree steps (the
    recursive helper followed by the whole-tree rebalancing pass,
    BALST.java:472-481 and 529-540), and what they do to AVL balance. */
module AvlBalance {
  import opened Wrappers
  import opened Trees
  import opened Balancing
  import opened Mutation
  import opened Search

  /** Public insert as the source writes it: fails with DuplicateKey only on
      a stored key, otherwise holds one more node and exactly one more key. */
  function Put<V>(t: Tree<V>, key: int, value: V): (r: Result<Tree<V>>)
    ensures r.Err? ==> r.error == DuplicateKey && key in Keys(t)
    ensures r.Ok? ==> Keys(r.value) == Keys(t) + {key} && Size(r.value) == Size(t) + 1
  {
    var u :- InsertNode(t, key, value);
    RebalanceKeepsContent(u);
    Ok(Rebalance(u))
  }

  /** Public remove as the source writes it: fails only with KeyNotFound;
      on success the key was stored, one node is gone and no key is added. */
  function Delete<V>(t: Tree<V>, key: int): (r: Result<Tree<V>>)
    ensures r.Err? ==> r.error == KeyNotFound
    ensures r.Ok? ==> key in Keys(t) && Keys(r.value) <= Keys(t) && Size(r.value) == Size(t) - 1
  {
    var u :- RemoveNode(t, key);
    RebalanceKeepsContent(u);
    Ok(Rebalance(u))
  }

  /** Public insert with the corrected rebalancing pass. */
  function PutFixed<V>(t: Tree<V>, key: int, value: V): (r: Result<Tree<V>>)
    ensures r.Err? ==> r.error == DuplicateKey && key in Keys(t)
    ensures r.Ok? ==> Keys(r.value) == Keys(t) + {key} && Size(r.value) == Size(t) + 1
  {
    var u :- InsertNode(t, key, value);
    RebalanceKeepsContent(u);
    Ok(RebalanceFixed(u))
  }

  /** Public remove with the corrected rebalancing pass. */
  function DeleteFixed<V>(t: Tree<V>, key: int): (r: Result<Tree<V>>)
    ensures r.Err? ==> r.error == KeyNotFound
    ensures r.Ok? ==> key in Keys(t) && Keys(r.value) <= Keys(t) && Size(r.value) == Size(t) - 1
  {
    var u :- RemoveNode(t, key);
    RebalanceKeepsContent(u);
    Ok(RebalanceFixed(u))
  }

  // ---------------------------------------------------------------------
  // The public operations against the abstract map
  // ---------------------------------------------------------------------

  /** On a BST, the public insert (either pass) fails exactly on a present
      key and otherwise binds key to value, keeping the BST order and adding
      one node. */
  lemma PutUpdatesMap<V>(t: Tree<V>, key: int, value: V)
    requires Bst(t)
    ensures Put(t, key, value).Err? <==> key in MapOf(t)
    ensures PutFixed(t, key, value).Err? <==> key in MapOf(t)
    ensures Put(t, key, value).Err? ==> Put(t, key, value).error == DuplicateKey
    ensures Put(t, key, value).Ok? ==>
      Bst(Put(t, key, value).value) && MapOf(Put(t, key, value).value) == MapOf(t)[key := value] &&
      Size(Put(t, key, value).value) == Size(t) + 1
    ensures PutFixed(t, key, value).Ok? ==>
      Bst(PutFixed(t, key, value).value) && MapOf(PutFixed(t, key, value).value) == MapOf(t)[key := value] &&
      Size(PutFixed(t, key, value).value) == Size(t) + 1
  {
    InsertNodeCorrect(t, key, value);
    MapOfKeys(t);
    if InsertNode(t, key, value).Ok? {
      RebalanceKeepsContent(InsertNode(t, key, value).value);
    }
  }

  /** On a BST, the public remove (either pass) fails exactly on an absent
      key and otherwise drops it, keeping the BST order and losing one
      node. */
  lemma DeleteUpdatesMap<V>(t: Tree<V>, key: int)
    requires Bst(t)
    ensures Delete(t, key).Err? <==> key !in MapOf(t)
    ensures DeleteFixed(t, key).Err? <==> key !in MapOf(t)
    ensures Delete(t, key).Err? ==> Delete(t, key).error == KeyNotFound
    ensures Delete(t, key).Ok? ==>
      Bst(Delete(t, key).value) && MapOf(Delete(t, key).value) == MapOf(t) - {key} &&
      Size(Delete(t, key).value) == Size(t) - 1
    ensures DeleteFixed(t, key).Ok? ==>
      Bst(DeleteFixed(t, key).value) && MapOf(DeleteFixed(t, key).value) == MapOf(t) - {key} &&
      Size(DeleteFixed(t, key).value) == Size(t) - 1
  {
    RemoveNodeCorrect(t, key);
    MapOfKeys(t);
    if RemoveNode(t, key).Ok? {
      RebalanceKeepsContent(RemoveNode(t, key).value);
    }
  }

  /** After a successful public insert, get finds the inserted value. */
  lemma GetAfterPut<V>(t: Tree<V>, key: int, value: V)
    requires Bst(t) && key !in MapOf(t)
    ensures Put(t, key, value).Ok?
    ensures Get(Put(t, key, value).value, key) == Ok(value)
  {
    PutUpdatesMap(t, key, value);
    GetCorrect(Put(t, key, value).value, key);
  }

  /** After a successful public remove, get fails with KeyNotFound. */
  lemma GetAfterDelete<V>(t: Tree<V>, key: int)
    requires Bst(t) && key in MapOf(t)
    ensures Delete(t, key).Ok?
    ensures Get(Delete(t, key).value, key) == Err(KeyNotFound)
  {
    DeleteUpdatesMap(t, key);
    GetCorrect(Delete(t, key).value, key);
  }

  /** What a successful public insert leaves, as a map. */
  lemma PutGivesMap<V>(t: Tree<V>, key: int, value: V, u: Tree<V>)
    requires Bst(t) && Put(t, key, value) == Ok(u)
    ensures Bst(u) && MapOf(u) == MapOf(t)[key := value]
  {
    PutUpdatesMap(t, key, value);
  }

  /** What the public remove of a stored key leaves, as a map. */
  lemma DeleteGivesMap<V>(u: Tree<V>, key: int, m: map<int, V>)
    requires Bst(u) && MapOf(u) == m && key in m
    ensures Delete(u, key).Ok? && MapOf(Delete(u, key).value) == m - {key}
  {
    DeleteUpdatesMap(u, key);
  }

  /** Round trip: removing a key that the public insert u just added
      restores the map that was there before. */
  lemma PutDeleteRoundTrip<V>(t: Tree<V>, key: int, value: V, u: Tree<V>)
    requires Bst(t) && key !in MapOf(t) && Put(t, key, value) == Ok(u)
    ensures Delete(u, key).Ok? && MapOf(Delete(u, key).value) == MapOf(t)
  {
    var m := MapOf(t)[key := value];
    PutGivesMap(t, key, value, u);
    DeleteGivesMap(u, key, m);
    UpdateThenRemove(MapOf(t), key, value);
  }

  /** Binding a fresh key and then removing it gives the map back. */
  lemma UpdateThenRemove<V>(m: map<int, V>, key: int, value: V)
    requires key !in m
    ensures m[key := value] - {key} == m
  {
  }

  // ---------------------------------------------------------------------
  // Insertion keeps AVL balance
  // ---------------------------------------------------------------------

  /** The node above a left subtree that grew by at most one level: the
      source's step and the corrected step coincide, yield an AVL subtree
      and the subtree grows by at most one level, leaving a non-level root
      whenever it grows. */
  lemma GrowLeftStep<V>(l: Tree<V>, L: Tree<V>, k: int, v: V, r: Tree<V>)
    requires Avl(Node(l, k, v, r)) && Avl(L)
    requires Height(L) == Height(l) ||
      (Height(L) == Height(l) + 1 && (l.Nil? || BalanceFactor(L) != 0))
    ensures RebalanceNode(Node(L, k, v, r)) == RebalanceNodeFixed(Node(L, k, v, r))
    ensures Avl(RebalanceNode(Node(L, k, v, r)))
    ensures Height(RebalanceNode(Node(L, k, v, r))) == Height(Node(l, k, v, r)) ||
      (Height(RebalanceNode(Node(L, k, v, r))) == Height(Node(l, k, v, r)) + 1 &&
       BalanceFactor(RebalanceNode(Node(L, k, v, r))) != 0)
  {
    var n := Node(L, k, v, r);
    if l.Nil? && Height(L) == 1 {
      assert Height(r) <= 1;
    }
    RebalanceNodeAgree(n);
    RebalanceNodeFixedAvl(n);
  }

  /** The mirror image of GrowLeftStep. */
  lemma GrowRightStep<V>(l: Tree<V>, k: int, v: V, r: Tree<V>, R: Tree<V>)
    requires Avl(Node(l, k, v, r)) && Avl(R)
    requires Height(R) == Height(r) ||
      (Height(R) == Height(r) + 1 && (r.Nil? || BalanceFactor(R) != 0))
    ensures RebalanceNode(Node(l, k, v, R)) == RebalanceNodeFixed(Node(l, k, v, R))
    ensures Avl(RebalanceNode(Node(l, k, v, R)))
    ensures Height(RebalanceNode(Node(l, k, v, R))) == Height(Node(l, k, v, r)) ||
      (Height(RebalanceNode(Node(l, k, v, R))) == Height(Node(l, k, v, r)) + 1 &&
       BalanceFactor(RebalanceNode(Node(l, k, v, R))) != 0)
  {
    var n := Node(l, k, v, R);
    if r.Nil? && Height(R) == 1 {
      assert Height(l) <= 1;
    }
    RebalanceNodeAgree(n);
    RebalanceNodeFixedAvl(n);
  }

  /** Inserting into an AVL tree and running the source's rebalancing pass
      gives an AVL tree; on such a tree the corrected pass does exactly the
      same. The height grows by at most one, and when a non-empty tree grows
      its root is left leaning to one side. */
  lemma {:induction false} InsertKeepsAvl<V>(t: Tree<V>, key: int, value: V)
    requires Avl(t) && InsertNode(t, key, value).Ok?
    ensures Avl(Rebalance(InsertNode(t, key, value).value))
    ensures Rebalance(InsertNode(t, key, value).value) == RebalanceFixed(InsertNode(t, key, value).value)
    ensures Height(Rebalance(InsertNode(t, key, value).value)) == Height(t) ||
      (Height(Rebalance(InsertNode(t, key, value).value)) == Height(t) + 1 &&
       (t.Nil? || BalanceFactor(Rebalance(InsertNode(t, key, value).value)) != 0))
  {
    match t
    case Nil =>
      AvlIsFixpoint(Node(Nil, key, value, Nil));
    case Node(l, k, v, r) =>
      AvlIsFixpoint(l);
      AvlIsFixpoint(r);
      if key < k {
        InsertKeepsAvl(l, key, value);
        var ul := InsertNode(l, key, value).value;
        GrowLeftStep(l, Rebalance(ul), k, v, r);
      } else {
        InsertKeepsAvl(r, key, value);
        var ur := InsertNode(r, key, value).value;
        GrowRightStep(l, k, v, r, Rebalance(ur));
      }
  }

  /** Public insert keeps AVL balance, and the corrected pass would insert
      exactly the same tree. */
  lemma PutKeepsAvl<V>(t: Tree<V>, key: int, value: V)
    requires Avl(t) && Put(t, key, value).Ok?
    ensures Avl(Put(t, key, value).value)
    ensures Put(t, key, value) == PutFixed(t, key, value)
  {
    InsertKeepsAvl(t, key, value);
  }

  // ---------------------------------------------------------------------
  // Removal keeps AVL balance under the corrected pass
  // ---------------------------------------------------------------------

  /** The node above a left subtree that shrank by at most one level: the
      corrected step yields an AVL subtree at most one level lower. */
  lemma ShrinkLeftStep<V>(l: Tree<V>, L: Tree<V>, k: int, v: V, r: Tree<V>)
    requires Avl(Node(l, k, v, r)) && Avl(L)
    requires Height(L) == Height(l) || Height(L) + 1 == Height(l)
    ensures Avl(RebalanceNodeFixed(Node(L, k, v, r)))
    ensures Height(RebalanceNodeFixed(Node(L, k, v, r))) == Height(Node(l, k, v, r)) ||
      Height(RebalanceNodeFixed(Node(L, k, v, r))) + 1 == Height(Node(l, k, v, r))
  {
    RebalanceNodeFixedAvl(Node(L, k, v, r));
  }

  /** The mirror image of ShrinkLeftStep. */
  lemma ShrinkRightStep<V>(l: Tree<V>, k: int, v: V, r: Tree<V>, R: Tree<V>)
    requires Avl(Node(l, k, v, r)) && Avl(R)
    requires Height(R) == Height(r) || Height(R) + 1 == Height(r)
    ensures Avl(RebalanceNodeFixed(Node(l, k, v, R)))
    ensures Height(RebalanceNodeFixed(Node(l, k, v, R))) == Height(Node(l, k, v, r)) ||
      Height(RebalanceNodeFixed(Node(l, k, v, R))) + 1 == Height(Node(l, k, v, r))
  {
    RebalanceNodeFixedAvl(Node(l, k, v, R));
  }

  /** Removing from an AVL tree and running the corrected pass gives an AVL
      tree at most one level lower. */
  lemma {:induction false} RemoveFixedKeepsAvl<V>(t: Tree<V>, key: int)
    requires Avl(t) && RemoveNode(t, key).Ok?
    ensures Avl(RebalanceFixed(RemoveNode(t, key).value))
    ensures Height(RebalanceFixed(RemoveNode(t, key).value)) == Height(t) ||
      Height(RebalanceFixed(RemoveNode(t, key).value)) + 1 == Height(t)
  {
    match t
    case Node(l, k, v, r) =>
      if k == key {
        if r.Node? && l.Node? {
          var p := Rightmost(l);
          RemoveFixedKeepsAvl(l, p.key);
          var ul := RemoveNode(l, p.key).value;
          assert RemoveNode(t, key) == Ok(Node(ul, p.key, p.value, r));
          RemoveBelowLeft(l, ul, p.key, p.value, r);
        } else {
          AvlIsFixpoint(l);
          AvlIsFixpoint(r);
        }
      } else if k > key {
        RemoveFixedKeepsAvl(l, key);
        var ul := RemoveNode(l, key).value;
        assert RemoveNode(t, key) == Ok(Node(ul, k, v, r));
        RemoveBelowLeft(l, ul, k, v, r);
      } else {
        RemoveFixedKeepsAvl(r, key);
        var ur := RemoveNode(r, key).value;
        assert RemoveNode(t, key) == Ok(Node(l, k, v, ur));
        RemoveBelowRight(l, k, v, r, ur);
      }
  }

  /** The corrected pass over a node whose left subtree lost a node and
      rebalances to an AVL subtree at most one level lower. */
  lemma RemoveBelowLeft<V>(l: Tree<V>, ul: Tree<V>, k: int, v: V, r: Tree<V>)
    requires Avl(Node(l, k, v, r)) && Avl(RebalanceFixed(ul))
    requires Height(RebalanceFixed(ul)) == Height(l) || Height(RebalanceFixed(ul)) + 1 == Height(l)
    ensures Avl(RebalanceFixed(Node(ul, k, v, r)))
    ensures Height(RebalanceFixed(Node(ul, k, v, r))) == Height(Node(l, k, v, r)) ||
      Height(RebalanceFixed(Node(ul, k, v, r))) + 1 == Height(Node(l, k, v, r))
  {
    AvlIsFixpoint(r);
    ShrinkLeftStep(l, RebalanceFixed(ul), k, v, r);
  }

  /** The mirror image of RemoveBelowLeft. */
  lemma RemoveBelowRight<V>(l: Tree<V>, k: int, v: V, r: Tree<V>, ur: Tree<V>)
    requires Avl(Node(l, k, v, r)) && Avl(RebalanceFixed(ur))
    requires Height(RebalanceFixed(ur)) == Height(r) || Height(RebalanceFixed(ur)) + 1 == Height(r)
    ensures Avl(RebalanceFixed(Node(l, k, v, ur)))
    ensures Height(RebalanceFixed(Node(l, k, v, ur))) == Height(Node(l, k, v, r)) ||
      Height(RebalanceFixed(Node(l, k, v, ur))) + 1 == Height(Node(l, k, v, r))
  {
    AvlIsFixpoint(l);
    ShrinkRightStep(l, k, v, r, RebalanceFixed(ur));
  }

  /** Public remove with the corrected pass keeps AVL balance. */
  lemma DeleteFixedKeepsAvl<V>(t: Tree<V>, key: int)
    requires Avl(t) && DeleteFixed(t, key).Ok?
    ensures Avl(DeleteFixed(t, key).value)
  {
    RemoveFixedKeepsAvl(t, key);
  }

  // ---------------------------------------------------------------------
  // The source's pass does not keep AVL balance after a removal
  // ---------------------------------------------------------------------

  /** The AVL tree that inserting 5, 2, 6, 1, 3, 7, 0, 4 (each key as its
      own value) builds without a single rotation:

                5
             2     6
           1   3     7
          0     4
  */
  function SampleTree(): Tree<int>
  {
    Node(
      Node(Node(Node(Nil, 0, 0, Nil), 1, 1, Nil), 2, 2, Node(Nil, 3, 3, Node(Nil, 4, 4, Nil))),
      5, 5,
      Node(Nil, 6, 6, Node(Nil, 7, 7, Nil)))
  }

  /** SampleTree is an AVL binary search tree. */
  lemma SampleTreeIsAvlBst()
    ensures Avl(SampleTree()) && Bst(SampleTree())
  {
    var a := Node(Node(Nil, 0, 0, Nil), 1, 1, Nil);
    var b := Node(Nil, 3, 3, Node(Nil, 4, 4, Nil));
    var c := Node(Nil, 6, 6, Node(Nil, 7, 7, Nil));
    assert Height(a) == 2 && Height(b) == 2 && Height(c) == 2;
    assert Keys(a) == {0, 1} && Keys(b) == {3, 4} && Keys(c) == {6, 7};
    assert Keys(Node(a, 2, 2, b)) == {0, 1, 2, 3, 4};
  }

  /** Removing 7 from SampleTree, before any rebalancing. */
  lemma SampleRemove()
    ensures RemoveNode(SampleTree(), 7) ==
      Ok(Node(SampleTree().left, 5, 5, Node(Nil, 6, 6, Nil)))
  {
  }

  /** Removing 7 from SampleTree leaves the root two levels heavier on the
      left with a level left child; the source then rotates left-right and
      the demoted node 2 keeps only its left subtree (of height two), so the
      result is not AVL. */
  lemma DeleteBreaksAvl()
    ensures Avl(SampleTree())
    ensures Delete(SampleTree(), 7).Ok? && !Avl(Delete(SampleTree(), 7).value)
  {
    SampleTreeIsAvlBst();
    SampleRemove();
    var a := Node(Node(Nil, 0, 0, Nil), 1, 1, Nil);
    var l := SampleTree().left;
    var six := Node(Nil, 6, 6, Nil);
    AvlIsFixpoint(l);
    AvlIsFixpoint(six);
    var n := Node(l, 5, 5, six);
    assert Height(a) == 2 && Height(l) == 3 && BalanceFactor(l) == 0;
    assert BalanceFactor(n) == 2;
    var bad := RotateLeftRight(n);
    assert Delete(SampleTree(), 7) == Ok(bad);
    assert bad.left == Node(a, 2, 2, Nil);
  }

  /** The corrected pass rotates right on the same removal and the result
      is AVL. */
  lemma DeleteFixedRepairsSample()
    ensures DeleteFixed(SampleTree(), 7).Ok? && Avl(DeleteFixed(SampleTree(), 7).value)
  {
    SampleLeftIsLevel();
    SampleRemove();
    LevelLeftRotatesRight(SampleTree(), 7, SampleTree().left, 5, 5, Node(Nil, 6, 6, Nil));
  }

  /** A removal that leaves two levels more on the left, where the left
      child is level and both sides are already AVL, is repaired by the
      corrected pass with a single right rotation. */
  lemma LevelLeftRotatesRight<V>(t: Tree<V>, key: int, l: Tree<V>, k: int, v: V, r: Tree<V>)
    requires RemoveNode(t, key) == Ok(Node(l, k, v, r))
    requires Avl(l) && Avl(r) && l.Node? && Height(l) == Height(r) + 2 && BalanceFactor(l) == 0
    ensures DeleteFixed(t, key) == Ok(RotateRight(Node(l, k, v, r)))
    ensures Avl(RotateRight(Node(l, k, v, r)))
  {
    var n := Node(l, k, v, r);
    assert RebalanceFixed(n) == RebalanceNodeFixed(n) by {
      AvlIsFixpoint(l);
      AvlIsFixpoint(r);
    }
    assert RebalanceNodeFixed(n) == RotateRight(n) by {
      assert BalanceFactor(n) == 2;
    }
    RotateRightAvl(n);
  }

  /** The left subtree of SampleTree is a level AVL tree of height three. */
  lemma SampleLeftIsLevel()
    ensures Avl(SampleTree().left)
    ensures Height(SampleTree().left) == 3 && BalanceFactor(SampleTree().left) == 0
  {
    var a := Node(Node(Nil, 0, 0, Nil), 1, 1, Nil);
    var b := Node(Nil, 3, 3, Node(Nil, 4, 4, Nil));
    assert Height(a) == 2 && Height(b) == 2;
  }

  // ---------------------------------------------------------------------
  // Height bound of an AVL tree
  // ---------------------------------------------------------------------

  /** The fewest nodes an AVL tree of height h can have. */
  function MinAvlSize(h: nat): nat
  {
    if h == 0 then 0 else if h == 1 then 1 else 1 + MinAvlSize(h - 1) + MinAvlSize(h - 2)
  }

  function Pow2(n: nat): nat
  {
    if n == 0 then 1 else 2 * Pow2(n - 1)
  }

  lemma {:induction false} MinAvlSizeMonotone(a: nat, b: nat)
    requires a <= b
    ensures MinAvlSize(a) <= MinAvlSize(b)
    decreases b
  {
    if a < b {
      MinAvlSizeMonotone(a, b - 1);
    }
  }

  /** An AVL tree of height h holds at least MinAvlSize(h) nodes. */
  lemma {:induction false} AvlSizeBound<V>(t: Tree<V>)
    requires Avl(t)
    ensures Size(t) >= MinAvlSize(Height(t))
  {
    match t
    case Nil =>
    case Node(l, k, v, r) =>
      AvlSizeBound(l);
      AvlSizeBound(r);
      MinAvlSizeOfNode(Height(l), Height(r), Size(l), Size(r));
      assert Size(t) == Size(l) + 1 + Size(r);
      assert Height(t) == if Height(l) > Height(r) then 1 + Height(l) else 1 + Height(r);
  }

  /** The counting step of AvlSizeBound: two children of near-equal heights
      hl and hr holding at least their minimum counts, plus the node itself,
      hold at least the minimum count of the taller height plus one. */
  lemma MinAvlSizeOfNode(hl: nat, hr: nat, sl: nat, sr: nat)
    requires -1 <= hl - hr <= 1
    requires sl >= MinAvlSize(hl) && sr >= MinAvlSize(hr)
    ensures sl + 1 + sr >= MinAvlSize(if hl > hr then 1 + hl else 1 + hr)
  {
    var h := if hl > hr then 1 + hl else 1 + hr;
    if h >= 2 {
      assert MinAvlSize(h) == 1 + MinAvlSize(h - 1) + MinAvlSize(h - 2);
      if hl > hr {
        MinAvlSizeMonotone(h - 2, hr);
      } else {
        MinAvlSizeMonotone(h - 2, hl);
      }
    }
  }

  /** MinAvlSize at least doubles every two levels. */
  lemma {:induction false} MinAvlSizeGrows(h: nat)
    ensures MinAvlSize(h) + 1 >= Pow2(h / 2)
  {
    if h >= 2 {
      MinAvlSizeGrows(h - 2);
      MinAvlSizeMonotone(h - 2, h - 1);
      assert (h - 2) / 2 == h / 2 - 1;
    }
  }

  /** Logarithmic height: an AVL tree of height h has more than
      2^(h/2) - 1 nodes, so h <= 2 * log2(n + 1) + 1. */
  lemma AvlHeightLogarithmic<V>(t: Tree<V>)
    requires Avl(t)
    ensures Pow2(Height(t) / 2) <= Size(t) + 1
  {
    AvlSizeBound(t);
    MinAvlSizeGrows(Height(t));
  }
}
