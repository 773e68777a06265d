/** The recursive insertion and removal helpers of BALST (BALST.java:494-514,
    552-606), before the rebalancing pass runs. Each Java helper relinks a
    child slot with the subtree its recursive call returns; on values this
    is rebuilding the node with the new child. A thrown exception becomes an
    `Err` result that propagates unchanged, so nothing is relinked when the
    descent fails. */
module Mutation {
  import opened Wrappers
  import opened Trees

  /** Recursive insertion: descend by comparison and hang a fresh leaf in the
      empty slot reached; meeting the key on the way fails with
      DuplicateKey. */
  function InsertNode<V>(t: Tree<V>, key: int, value: V): (r: Result<Tree<V>>)
    ensures r.Err? ==> r.error == DuplicateKey && key in Keys(t)
    ensures r.Ok? ==> Keys(r.value) == Keys(t) + {key} && Size(r.value) == Size(t) + 1
  {
    match t
    case Nil => Ok(Node(Nil, key, value, Nil))
    case Node(l, k, v, rt) =>
      if k == key then Err(DuplicateKey)
      else if key < k then
        var l' :- InsertNode(l, key, value);
        Ok(Node(l', k, v, rt))
      else
        var r' :- InsertNode(rt, key, value);
        Ok(Node(l, k, v, r'))
  }

  /** The rightmost node of a non-empty subtree: the last pair in its in-order
      sequence, with no right child. */
  function Rightmost<V>(t: Tree<V>): (m: Tree<V>)
    requires t.Node?
    ensures m.Node? && m.right.Nil?
    ensures m.key in Keys(t)
    ensures Elements(t)[|Elements(t)| - 1] == (m.key, m.value)
  {
    if t.right.Nil? then t else Rightmost(t.right)
  }

  /** The cursor walk of getInOrderPredecessor: from the left child follow
      right links to the end. The node found holds the pair that comes just
      before the node's own pair in the in-order sequence. */
  method InOrderPredecessor<V>(node: Tree<V>) returns (p: Tree<V>)
    requires node.Node? && node.left.Node?
    ensures p == Rightmost(node.left)
    ensures p.right.Nil?
    ensures Elements(node)[|Elements(node.left)| - 1] == (p.key, p.value)
  {
    var temp := node.left;
    while temp.right.Node?
      invariant temp.Node? && Rightmost(temp) == Rightmost(node.left)
      decreases Size(temp)
    {
      temp := temp.right;
    }
    p := temp;
  }

  /** Recursive removal: descend by comparison; on a match, a node with two
      children takes over the key and value of its in-order predecessor,
      which is then removed from the left subtree, while a node with at most
      one child is replaced by that child (or by nothing). Running off the
      tree fails with KeyNotFound. */
  function RemoveNode<V>(t: Tree<V>, key: int): (r: Result<Tree<V>>)
    ensures r.Err? ==> r.error == KeyNotFound
    ensures r.Ok? ==> key in Keys(t) && Keys(r.value) <= Keys(t) && Size(r.value) == Size(t) - 1
  {
    match t
    case Nil => Err(KeyNotFound)
    case Node(l, k, v, rt) =>
      if k == key then
        if rt.Node? && l.Node? then
          var p := Rightmost(l);
          var l' :- RemoveNode(l, p.key);
          Ok(Node(l', p.key, p.value, rt))
        else if l.Nil? then Ok(rt)
        else Ok(l)
      else if k > key then
        var l' :- RemoveNode(l, key);
        Ok(Node(l', k, v, rt))
      else
        var r' :- RemoveNode(rt, key);
        Ok(Node(l, k, v, r'))
  }

  // ---------------------------------------------------------------------
  // Correctness against the abstract map
  // ---------------------------------------------------------------------

  // Map algebra used by the correctness lemmas: binding or dropping a key
  // that belongs to one side of a node's map.

  lemma MapBindLeft<V>(a: map<int, V>, a': map<int, V>, k: int, v: V, b: map<int, V>, key: int, value: V)
    requires a' == a[key := value] && key != k && key !in b
    ensures a'[k := v] + b == (a[k := v] + b)[key := value]
  {
  }

  lemma MapBindRight<V>(a: map<int, V>, k: int, v: V, b: map<int, V>, b': map<int, V>, key: int, value: V)
    requires b' == b[key := value] && key != k
    ensures a[k := v] + b' == (a[k := v] + b)[key := value]
  {
  }

  lemma MapDropLeft<V>(a: map<int, V>, a': map<int, V>, k: int, v: V, b: map<int, V>, key: int)
    requires a' == a - {key} && key != k && key !in b
    ensures a'[k := v] + b == (a[k := v] + b) - {key}
  {
  }

  lemma MapDropRight<V>(a: map<int, V>, k: int, v: V, b: map<int, V>, b': map<int, V>, key: int)
    requires b' == b - {key} && key != k && key !in a
    ensures a[k := v] + b' == (a[k := v] + b) - {key}
  {
  }

  /** Replacing a two-child node's pair by its predecessor's, after the
      predecessor was dropped from the left map, drops the node's own key. */
  lemma MapDropByPredecessor<V>(a: map<int, V>, a': map<int, V>, k: int, v: V, b: map<int, V>, pk: int)
    requires pk in a && a' == a - {pk} && k !in a && k !in b
    ensures a'[pk := a[pk]] + b == (a[k := v] + b) - {k}
  {
  }

  /** On a BST, insertion fails exactly when the key is present; otherwise
      the result is a BST whose map is the old map with key bound to value. */
  lemma {:induction false} InsertNodeCorrect<V>(t: Tree<V>, key: int, value: V)
    requires Bst(t)
    ensures InsertNode(t, key, value).Err? <==> key in Keys(t)
    ensures InsertNode(t, key, value).Ok? ==>
      Bst(InsertNode(t, key, value).value) &&
      MapOf(InsertNode(t, key, value).value) == MapOf(t)[key := value]
  {
    match t
    case Nil =>
      MapOfNode(Nil, key, value, Nil);
    case Node(l, k, v, rt) =>
      MapOfNode(l, k, v, rt);
      if k == key {
      } else if key < k {
        InsertNodeCorrect(l, key, value);
        if InsertNode(l, key, value).Ok? {
          var l' := InsertNode(l, key, value).value;
          MapOfNode(l', k, v, rt);
          MapOfKeys(rt);
          MapBindLeft(MapOf(l), MapOf(l'), k, v, MapOf(rt), key, value);
        }
      } else {
        InsertNodeCorrect(rt, key, value);
        if InsertNode(rt, key, value).Ok? {
          var r' := InsertNode(rt, key, value).value;
          MapOfNode(l, k, v, r');
          MapBindRight(MapOf(l), k, v, MapOf(rt), MapOf(r'), key, value);
        }
      }
  }

  /** In a BST the rightmost node holds the largest key. */
  lemma {:induction false} RightmostIsMax<V>(t: Tree<V>)
    requires t.Node? && Bst(t)
    ensures forall x :: x in Keys(t) ==> x <= Rightmost(t).key
  {
    if t.right.Node? {
      RightmostIsMax(t.right);
    }
  }

  /** The map of a non-empty tree binds the key of its rightmost node to that
      node's value. */
  lemma RightmostInMap<V>(t: Tree<V>)
    requires t.Node?
    ensures Rightmost(t).key in MapOf(t) && MapOf(t)[Rightmost(t).key] == Rightmost(t).value
  {
    var s := Elements(t);
    assert s != [];
  }

  /** The two-child case of removal on a BST: the rebuilt node is a BST whose
      map lacks exactly the removed key. */
  lemma RemoveTwoChildren<V>(l: Tree<V>, k: int, v: V, rt: Tree<V>, l': Tree<V>)
    requires Bst(Node(l, k, v, rt)) && l.Node? && rt.Node?
    requires Bst(l') && MapOf(l') == MapOf(l) - {Rightmost(l).key}
    ensures Bst(Node(l', Rightmost(l).key, Rightmost(l).value, rt))
    ensures MapOf(Node(l', Rightmost(l).key, Rightmost(l).value, rt)) == MapOf(Node(l, k, v, rt)) - {k}
  {
    var p := Rightmost(l);
    MapOfKeys(l);
    MapOfKeys(l');
    MapOfKeys(rt);
    RightmostIsMax(l);
    RightmostInMap(l);
    assert forall x :: x in Keys(l') ==> x < p.key;
    MapOfNode(l', p.key, p.value, rt);
    MapOfNode(l, k, v, rt);
    MapDropByPredecessor(MapOf(l), MapOf(l'), k, v, MapOf(rt), p.key);
  }

  /** On a BST, removal fails exactly when the key is absent; otherwise the
      result is a BST whose map is the old map without key. */
  lemma {:induction false} RemoveNodeCorrect<V>(t: Tree<V>, key: int)
    requires Bst(t)
    ensures RemoveNode(t, key).Err? <==> key !in Keys(t)
    ensures RemoveNode(t, key).Ok? ==>
      Bst(RemoveNode(t, key).value) &&
      MapOf(RemoveNode(t, key).value) == MapOf(t) - {key}
  {
    match t
    case Nil =>
    case Node(l, k, v, rt) =>
      MapOfNode(l, k, v, rt);
      if k == key {
        MapOfKeys(l);
        MapOfKeys(rt);
        if rt.Node? && l.Node? {
          RemoveNodeCorrect(l, Rightmost(l).key);
          RemoveTwoChildren(l, k, v, rt, RemoveNode(l, Rightmost(l).key).value);
        } else if l.Nil? {
          assert MapOf(rt) == MapOf(t) - {key};
        } else {
          assert MapOf(l) == MapOf(t) - {key};
        }
      } else if k > key {
        RemoveNodeCorrect(l, key);
        if RemoveNode(l, key).Ok? {
          var l' := RemoveNode(l, key).value;
          MapOfNode(l', k, v, rt);
          MapOfKeys(rt);
          MapDropLeft(MapOf(l), MapOf(l'), k, v, MapOf(rt), key);
        }
      } else {
        RemoveNodeCorrect(rt, key);
        if RemoveNode(rt, key).Ok? {
          var r' := RemoveNode(rt, key).value;
          MapOfNode(l, k, v, r');
          MapOfKeys(l);
          MapDropRight(MapOf(l), k, v, MapOf(rt), MapOf(r'), key);
        }
      }
  }
}
