/** The BALST object (BALST.java:29-41, 175-710): a root link and a key
    counter that insert and remove reassign. The tree below the root is a
    value of type Tree (nodes are owned by exactly one parent and there are
    no parent links, so relinking in place and rebuilding agree). Keys are
    integers and therefore never null. */
module Balst {
  import opened Wrappers
  import opened Trees
  import opened Balancing
  import opened Mutation
  import opened Search
  import opened Traversals
  import opened AvlBalance

  class BALST<V> {
    var root: Tree<V>
    var numKeys: int

    /** The object invariant: ordered keys and an exact key count. AVL
        balance is not part of it: insert keeps it (see Insert), but the
        rebalancing pass as written can leave a removal unbalanced (see
        AvlBalance.DeleteBreaksAvl). */
    ghost predicate Valid()
      reads this
    {
      Bst(root) && numKeys == Size(root)
    }

    /** The abstract map the tree stores. */
    ghost function Contents(): map<int, V>
      reads this
    {
      MapOf(root)
    }

    /** An empty tree (BALST.java:38-41). */
    constructor ()
      ensures Valid()
      ensures Contents() == map[] && numKeys == 0
    {
      root := Nil;
      numKeys := 0;
    }

    /** insert (BALST.java:472-481): the recursive descent either fails with
        DuplicateKey before anything is assigned, or hangs a new leaf; then
        the counter grows and the whole tree is rebalanced. An AVL tree stays
        AVL. */
    method Insert(key: int, value: V) returns (r: Result<()>)
      requires Valid()
      modifies this
      ensures Valid()
      ensures r.Err? <==> key in old(Contents())
      ensures r.Err? ==> r.error == DuplicateKey && root == old(root) && numKeys == old(numKeys)
      ensures r.Ok? ==> Contents() == old(Contents())[key := value] && numKeys == old(numKeys) + 1
      ensures r.Ok? ==> Put(old(root), key, value) == Ok(root)
      ensures old(Avl(root)) ==> Avl(root)
    {
      InsertNodeCorrect(root, key, value);
      MapOfKeys(root);
      var u := InsertNode(root, key, value);
      if u.Err? {
        return Err(u.error);
      }
      if Avl(root) {
        InsertKeepsAvl(root, key, value);
      }
      RebalanceKeepsContent(u.value);
      root := u.value;
      numKeys := numKeys + 1;
      root := Rebalance(root);
      r := Ok(());
    }

    /** remove (BALST.java:529-540): the recursive descent either fails with
        KeyNotFound before anything is assigned, or unlinks the key; then the
        counter drops and the whole tree is rebalanced. */
    method Remove(key: int) returns (r: Result<bool>)
      requires Valid()
      modifies this
      ensures Valid()
      ensures r.Err? <==> key !in old(Contents())
      ensures r.Err? ==> r.error == KeyNotFound && root == old(root) && numKeys == old(numKeys)
      ensures r.Ok? ==> r.value && Contents() == old(Contents()) - {key} && numKeys == old(numKeys) - 1
      ensures r.Ok? ==> Delete(old(root), key) == Ok(root)
    {
      RemoveNodeCorrect(root, key);
      MapOfKeys(root);
      var u := RemoveNode(root, key);
      if u.Err? {
        return Err(u.error);
      }
      RebalanceKeepsContent(u.value);
      root := u.value;
      numKeys := numKeys - 1;
      root := Rebalance(root);
      r := Ok(true);
    }

    /** get (BALST.java:621-654). */
    method Get(key: int) returns (r: Result<V>)
      requires Valid()
      ensures r.Ok? <==> key in Contents()
      ensures r.Ok? ==> r.value == Contents()[key]
      ensures r.Err? ==> r.error == KeyNotFound
    {
      GetCorrect(root, key);
      r := Search.Get(root, key);
    }

    /** contains (BALST.java:668-700). */
    method Contains(key: int) returns (b: bool)
      requires Valid()
      ensures b <==> key in Contents()
    {
      ContainsCorrect(root, key);
      MapOfKeys(root);
      b := Search.Contains(root, key);
    }

    /** getKeyAtRoot (BALST.java:175-181). */
    method GetKeyAtRoot() returns (r: Option<int>)
      requires Valid()
      ensures r.None? <==> numKeys == 0
      ensures r.Some? ==> r.value in Contents() && (root.Node? && r.value == root.key)
    {
      MapOfKeys(root);
      r := KeyAtRoot(root);
    }

    /** getKeyOfLeftChildOf (BALST.java:197-235). */
    method GetKeyOfLeftChildOf(key: int) returns (r: Result<Option<int>>)
      requires Valid()
      ensures r.Err? <==> key !in Contents()
      ensures r.Err? ==> r.error == KeyNotFound
      ensures forall s :: IsSubtree(s, root) && s.Node? && s.key == key ==> r == Ok(KeyAtRoot(s.left))
    {
      ChildLookupCorrect(root, key);
      MapOfKeys(root);
      r := KeyOfLeftChildOf(root, key);
    }

    /** getKeyOfRightChildOf (BALST.java:250-287). */
    method GetKeyOfRightChildOf(key: int) returns (r: Result<Option<int>>)
      requires Valid()
      ensures r.Err? <==> key !in Contents()
      ensures r.Err? ==> r.error == KeyNotFound
      ensures forall s :: IsSubtree(s, root) && s.Node? && s.key == key ==> r == Ok(KeyAtRoot(s.right))
    {
      ChildLookupCorrect(root, key);
      MapOfKeys(root);
      r := KeyOfRightChildOf(root, key);
    }

    /** getHeight (BALST.java:295-322): zero exactly for the empty tree, and
        logarithmic in the number of keys while the tree is AVL. */
    method GetHeight() returns (h: nat)
      requires Valid()
      ensures h == Height(root)
      ensures h == 0 <==> numKeys == 0
      ensures Avl(root) ==> Pow2(h / 2) <= numKeys + 1
    {
      if Avl(root) {
        AvlHeightLogarithmic(root);
      }
      h := Height(root);
    }

    /** numKeys (BALST.java:708-710): the number of stored keys. */
    method NumKeys() returns (n: int)
      requires Valid()
      ensures n == |Contents()|
    {
      BstSizeIsKeyCount(root);
      n := numKeys;
    }

    /** getInOrderTraversal (BALST.java:331-353): the stored keys in strictly
        ascending order, one entry per key. */
    method GetInOrderTraversal() returns (list: seq<int>)
      requires Valid()
      ensures list == InOrder(root)
      ensures Ascending(list) && |list| == numKeys
      ensures forall x :: x in list <==> x in Contents()
    {
      InOrderSortedOnBst(root);
      MapOfKeys(root);
      list := AppendInOrder(root, []);
    }

    /** getPreOrderTraversal (BALST.java:362-384). */
    method GetPreOrderTraversal() returns (list: seq<int>)
      requires Valid()
      ensures list == PreOrder(root)
      ensures multiset(list) == multiset(InOrder(root))
      ensures root.Node? ==> list[0] == root.key
    {
      PreOrderIsPermutation(root);
      list := AppendPreOrder(root, []);
    }

    /** getPostOrderTraversal (BALST.java:393-414). */
    method GetPostOrderTraversal() returns (list: seq<int>)
      requires Valid()
      ensures list == PostOrder(root)
      ensures multiset(list) == multiset(InOrder(root))
      ensures root.Node? ==> list[|list| - 1] == root.key
    {
      PostOrderIsPermutation(root);
      list := AppendPostOrder(root, []);
    }

    /** getLevelOrderTraversal (BALST.java:423-457): breadth-first, every
        key once. */
    method GetLevelOrderTraversal() returns (list: seq<int>)
      requires Valid()
      ensures list == LevelOrder(root)
      ensures list == Levels(root, 0, Height(root))
      ensures multiset(list) == multiset(InOrder(root)) && |list| == numKeys
      ensures root.Node? ==> list[0] == root.key
    {
      LevelOrderIsPermutation(root);
      LevelOrderIsBreadthFirst(root);
      list := LevelOrderTraversal(root);
    }
  }
}
