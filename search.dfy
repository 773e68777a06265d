/** The read-only descents of BALST (BALST.java:175-287, 640-700): get,
    contains, the key at the root and the keys of a node's children. Each
    compares the target with the current key, stops on equality and moves
    left on a smaller target, right otherwise. */
module Search {
  import opened Wrappers
  import opened Trees

  /** The key of a subtree's root, or None for an empty slot
      (getKeyAtRoot on the whole tree). */
  function KeyAtRoot<V>(t: Tree<V>): (r: Option<int>)
    ensures r.Some? ==> r.value in Keys(t)
    ensures r.None? <==> Size(t) == 0
  {
    if t.Nil? then None else Some(t.key)
  }

  /** The value stored under key; running off the tree fails with
      KeyNotFound. */
  function Get<V>(t: Tree<V>, key: int): (r: Result<V>)
    ensures r.Err? ==> r.error == KeyNotFound
    ensures r.Ok? ==> key in Keys(t)
  {
    match t
    case Nil => Err(KeyNotFound)
    case Node(l, k, v, rt) =>
      if key == k then Ok(v)
      else if key < k then Get(l, key)
      else Get(rt, key)
  }

  /** The same descent answering whether the key was met. */
  function Contains<V>(t: Tree<V>, key: int): (b: bool)
    ensures b ==> key in Keys(t)
  {
    match t
    case Nil => false
    case Node(l, k, _, rt) =>
      if key == k then true
      else if key < k then Contains(l, key)
      else Contains(rt, key)
  }

  /** The key of the left child of the node holding key (None when that slot
      is empty); a key that is not in the tree fails with KeyNotFound. */
  function KeyOfLeftChildOf<V>(t: Tree<V>, key: int): (r: Result<Option<int>>)
    ensures r.Err? ==> r.error == KeyNotFound
    ensures r.Ok? ==> key in Keys(t)
  {
    match t
    case Nil => Err(KeyNotFound)
    case Node(l, k, _, rt) =>
      if k == key then Ok(KeyAtRoot(l))
      else if key < k then KeyOfLeftChildOf(l, key)
      else KeyOfLeftChildOf(rt, key)
  }

  /** The key of the right child of the node holding key (None when that
      slot is empty); a key that is not in the tree fails with
      KeyNotFound. */
  function KeyOfRightChildOf<V>(t: Tree<V>, key: int): (r: Result<Option<int>>)
    ensures r.Err? ==> r.error == KeyNotFound
    ensures r.Ok? ==> key in Keys(t)
  {
    match t
    case Nil => Err(KeyNotFound)
    case Node(l, k, _, rt) =>
      if k == key then Ok(KeyAtRoot(rt))
      else if key < k then KeyOfRightChildOf(l, key)
      else KeyOfRightChildOf(rt, key)
  }

  // ---------------------------------------------------------------------
  // Agreement with the abstract map
  // ---------------------------------------------------------------------

  /** On a BST, get finds exactly the keys of the map and returns the value
      the map binds. */
  lemma {:induction false} GetCorrect<V>(t: Tree<V>, key: int)
    requires Bst(t)
    ensures Get(t, key).Ok? <==> key in MapOf(t)
    ensures Get(t, key).Ok? ==> Get(t, key).value == MapOf(t)[key]
  {
    match t
    case Nil =>
    case Node(l, k, v, rt) =>
      MapOfNode(l, k, v, rt);
      MapOfKeys(l);
      MapOfKeys(rt);
      if key < k {
        GetCorrect(l, key);
      } else if key > k {
        GetCorrect(rt, key);
      }
  }

  /** On a BST, contains holds exactly for the stored keys. */
  lemma {:induction false} ContainsCorrect<V>(t: Tree<V>, key: int)
    requires Bst(t)
    ensures Contains(t, key) <==> key in Keys(t)
  {
    match t
    case Nil =>
    case Node(l, k, v, rt) =>
      if key < k {
        ContainsCorrect(l, key);
      } else if key > k {
        ContainsCorrect(rt, key);
      }
  }

  /** On a BST, the child lookups fail exactly for absent keys, and for a
      present key they report the children of the one node that holds it. */
  lemma {:induction false} ChildLookupCorrect<V>(t: Tree<V>, key: int)
    requires Bst(t)
    ensures KeyOfLeftChildOf(t, key).Err? <==> key !in Keys(t)
    ensures KeyOfRightChildOf(t, key).Err? <==> key !in Keys(t)
    ensures forall s :: IsSubtree(s, t) && s.Node? && s.key == key ==>
      KeyOfLeftChildOf(t, key) == Ok(KeyAtRoot(s.left)) &&
      KeyOfRightChildOf(t, key) == Ok(KeyAtRoot(s.right))
  {
    match t
    case Nil =>
    case Node(l, k, v, rt) =>
      if key < k {
        ChildLookupCorrect(l, key);
      } else if key > k {
        ChildLookupCorrect(rt, key);
      }
      forall s | IsSubtree(s, t) && s.Node? && s.key == key
        ensures KeyOfLeftChildOf(t, key) == Ok(KeyAtRoot(s.left))
        ensures KeyOfRightChildOf(t, key) == Ok(KeyAtRoot(s.right))
      {
        if s != t {
          if IsSubtree(s, l) {
            SubtreeKeys(s, l);
            assert key in Keys(l);
          } else {
            assert IsSubtree(s, rt);
            SubtreeKeys(s, rt);
            assert key in Keys(rt);
          }
        }
      }
  }
}
