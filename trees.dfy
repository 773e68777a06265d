/** The node model of BALST (its inner class Node) as an immutable value, and
    the abstract views of a tree that every operation is specified against:
    its size, height, key set, in-order (key, value) sequence and the map it
    represents, plus the ordering (BST) and AVL balance invariants. */
module Trees {

  /** A subtree: either an empty child slot (Java null) or a node that owns
      its two children. Nodes are exclusively owned and have no parent links,
      so relinking a node in place is the same as building a new value. */
  datatype Tree<V> = Nil | Node(left: Tree<V>, key: int, value: V, right: Tree<V>)

  /** Number of nodes reachable from t. */
  function Size<V>(t: Tree<V>): nat
  {
    match t
    case Nil => 0
    case Node(l, _, _, r) => Size(l) + 1 + Size(r)
  }

  /** Height as the source recomputes it: 0 for an empty slot, otherwise one
      more than the taller child. */
  function Height<V>(t: Tree<V>): (h: nat)
    ensures h == 0 <==> t.Nil?
    ensures h <= Size(t)
  {
    match t
    case Nil => 0
    case Node(l, _, _, r) =>
      if Height(l) > Height(r) then 1 + Height(l) else 1 + Height(r)
  }

  /** The set of keys stored in t. */
  function Keys<V>(t: Tree<V>): set<int>
  {
    match t
    case Nil => {}
    case Node(l, k, _, r) => Keys(l) + {k} + Keys(r)
  }

  /** The in-order sequence of (key, value) pairs: the abstract content that
      rotations and rebalancing must not change. */
  function Elements<V>(t: Tree<V>): seq<(int, V)>
  {
    match t
    case Nil => []
    case Node(l, k, v, r) => Elements(l) + [(k, v)] + Elements(r)
  }

  /** The in-order sequence of keys (what the in-order traversal returns). */
  function InOrder<V>(t: Tree<V>): seq<int>
  {
    match t
    case Nil => []
    case Node(l, k, _, r) => InOrder(l) + [k] + InOrder(r)
  }

  /** The keys of a sequence of pairs, in order. */
  function KeysOf<V>(s: seq<(int, V)>): (ks: seq<int>)
    ensures |ks| == |s|
    ensures forall i :: 0 <= i < |s| ==> ks[i] == s[i].0
  {
    seq(|s|, i requires 0 <= i < |s| => s[i].0)
  }

  /** The map a sequence of pairs denotes; a later pair for the same key wins. */
  function PairsMap<V>(s: seq<(int, V)>): map<int, V>
  {
    if s == [] then map[] else PairsMap(s[..|s| - 1])[s[|s| - 1].0 := s[|s| - 1].1]
  }

  /** The abstract ordered map that a tree represents. */
  function MapOf<V>(t: Tree<V>): map<int, V>
  {
    PairsMap(Elements(t))
  }

  /** Strictly ascending sequence of keys. */
  predicate Ascending(s: seq<int>)
  {
    forall i, j :: 0 <= i < j < |s| ==> s[i] < s[j]
  }

  /** Binary-search-tree ordering: every key in a left subtree is smaller than
      the node's key, every key in a right subtree is larger (which also makes
      keys unique). */
  predicate Bst<V>(t: Tree<V>)
  {
    match t
    case Nil => true
    case Node(l, k, _, r) =>
      Bst(l) && Bst(r) &&
      (forall x :: x in Keys(l) ==> x < k) &&
      (forall x :: x in Keys(r) ==> k < x)
  }

  /** AVL balance: at every node the heights of the two children differ by at
      most one. */
  predicate Avl<V>(t: Tree<V>)
  {
    match t
    case Nil => true
    case Node(l, _, _, r) =>
      Avl(l) && Avl(r) && -1 <= Height(l) - Height(r) <= 1
  }

  /** The subtree s occurs somewhere in t (t itself included). */
  ghost predicate IsSubtree<V>(s: Tree<V>, t: Tree<V>)
  {
    s == t ||
    match t
    case Nil => false
    case Node(l, _, _, r) => IsSubtree(s, l) || IsSubtree(s, r)
  }

  // ---------------------------------------------------------------------
  // Relations between the abstract views
  // ---------------------------------------------------------------------

  lemma {:induction false} PairsMapAppend<V>(a: seq<(int, V)>, b: seq<(int, V)>)
    ensures PairsMap(a + b) == PairsMap(a) + PairsMap(b)
    decreases |b|
  {
    if b == [] {
      assert a + b == a;
    } else {
      var b' := b[..|b| - 1];
      var last := b[|b| - 1];
      assert (a + b)[..|a + b| - 1] == a + b';
      PairsMapAppend(a, b');
    }
  }

  /** The map of a node is its left map, then its own pair, then its right map. */
  lemma MapOfNode<V>(l: Tree<V>, k: int, v: V, r: Tree<V>)
    ensures MapOf(Node(l, k, v, r)) == MapOf(l)[k := v] + MapOf(r)
  {
    var a := Elements(l);
    PairsMapAppend(a + [(k, v)], Elements(r));
    assert (a + [(k, v)])[..|a|] == a;
  }

  /** The map's keys are exactly the tree's keys. */
  lemma {:induction false} MapOfKeys<V>(t: Tree<V>)
    ensures MapOf(t).Keys == Keys(t)
  {
    match t
    case Nil =>
    case Node(l, k, v, r) =>
      MapOfNode(l, k, v, r);
      MapOfKeys(l);
      MapOfKeys(r);
  }

  /** The in-order traversal is the key projection of the in-order pairs, and
      it has one entry per node. */
  lemma {:induction false} InOrderOfElements<V>(t: Tree<V>)
    ensures InOrder(t) == KeysOf(Elements(t))
    ensures |InOrder(t)| == |Elements(t)| == Size(t)
  {
    match t
    case Nil =>
    case Node(l, k, v, r) =>
      InOrderOfElements(l);
      InOrderOfElements(r);
  }

  /** A key is stored in t exactly when the in-order traversal lists it. */
  lemma {:induction false} InOrderKeys<V>(t: Tree<V>)
    ensures forall x :: x in Keys(t) <==> x in InOrder(t)
  {
    match t
    case Nil =>
    case Node(l, k, v, r) =>
      InOrderKeys(l);
      InOrderKeys(r);
  }

  /** A sequence split around k is ascending exactly when both sides are,
      everything on the left is below k and everything on the right above. */
  lemma AscendingSplit(a: seq<int>, k: int, b: seq<int>)
    ensures Ascending(a + [k] + b) <==>
      Ascending(a) && Ascending(b) &&
      (forall x :: x in a ==> x < k) && (forall y :: y in b ==> k < y)
  {
    var s := a + [k] + b;
    if Ascending(s) {
      forall i, j | 0 <= i < j < |a| ensures a[i] < a[j] { assert a[i] == s[i] && a[j] == s[j]; }
      forall i, j | 0 <= i < j < |b| ensures b[i] < b[j] {
        assert b[i] == s[i + |a| + 1] && b[j] == s[j + |a| + 1];
      }
      forall x | x in a ensures x < k {
        var i :| 0 <= i < |a| && a[i] == x;
        assert s[i] == x && s[|a|] == k;
      }
      forall y | y in b ensures k < y {
        var j :| 0 <= j < |b| && b[j] == y;
        assert s[j + |a| + 1] == y && s[|a|] == k;
      }
    }
    if Ascending(a) && Ascending(b) && (forall x :: x in a ==> x < k) && (forall y :: y in b ==> k < y) {
      forall i, j | 0 <= i < j < |s| ensures s[i] < s[j] {
        if j < |a| {
          assert s[i] == a[i] && s[j] == a[j];
        } else if i < |a| {
          assert s[i] == a[i] && a[i] in a;
          if j > |a| { assert s[j] == b[j - |a| - 1] && b[j - |a| - 1] in b; }
        } else if i == |a| {
          assert s[j] == b[j - |a| - 1] && b[j - |a| - 1] in b;
        } else {
          assert s[i] == b[i - |a| - 1] && s[j] == b[j - |a| - 1];
        }
      }
    }
  }

  /** BST ordering holds exactly when the in-order traversal is strictly
      ascending. */
  lemma {:induction false} BstIffAscending<V>(t: Tree<V>)
    ensures Bst(t) <==> Ascending(InOrder(t))
  {
    match t
    case Nil =>
    case Node(l, k, v, r) =>
      BstIffAscending(l);
      BstIffAscending(r);
      InOrderKeys(l);
      InOrderKeys(r);
      AscendingSplit(InOrder(l), k, InOrder(r));
  }

  /** Two trees with the same in-order pairs have the same traversal, keys,
      size, map and ordering status: this is what makes every rotation
      invisible to the abstract map. */
  lemma SameElements<V>(a: Tree<V>, b: Tree<V>)
    requires Elements(a) == Elements(b)
    ensures InOrder(a) == InOrder(b)
    ensures Keys(a) == Keys(b)
    ensures Size(a) == Size(b)
    ensures MapOf(a) == MapOf(b)
    ensures Bst(a) <==> Bst(b)
  {
    InOrderOfElements(a);
    InOrderOfElements(b);
    InOrderKeys(a);
    InOrderKeys(b);
    BstIffAscending(a);
    BstIffAscending(b);
    forall x ensures x in Keys(a) <==> x in Keys(b) {
      assert x in Keys(a) <==> x in InOrder(a);
      assert x in Keys(b) <==> x in InOrder(b);
    }
  }

  /** In a BST the number of nodes is the number of distinct keys. */
  lemma {:induction false} BstSizeIsKeyCount<V>(t: Tree<V>)
    requires Bst(t)
    ensures |Keys(t)| == Size(t) == |MapOf(t)|
  {
    MapOfKeys(t);
    match t
    case Nil =>
    case Node(l, k, v, r) =>
      BstSizeIsKeyCount(l);
      BstSizeIsKeyCount(r);
      forall x | x in Keys(r) ensures x !in Keys(l) + {k} {
        assert k < x;
      }
      assert Keys(l) * {k} == {};
      assert (Keys(l) + {k}) * Keys(r) == {};
  }

  /** A node found anywhere in t has its key in t's key set. */
  lemma {:induction false} SubtreeKeys<V>(s: Tree<V>, t: Tree<V>)
    requires IsSubtree(s, t)
    ensures Keys(s) <= Keys(t)
  {
    if s != t {
      match t
      case Node(l, _, _, r) =>
        if IsSubtree(s, l) { SubtreeKeys(s, l); } else { SubtreeKeys(s, r); }
    }
  }
}
