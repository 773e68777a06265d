/** The four rotation primitives and the bottom-up rebalancing pass of BALST
    (BALST.java:50-166). Rotations relink existing nodes only; here they build
    the relinked value. `Rebalance` is the pass as the source writes it;
    `RebalanceFixed` differs only in the tie-break of the left-heavy case
    (see the Findings section of the README). */
module Balancing {
  import opened Trees

  /** Balance factor: left height minus right height; the source answers -1
      for an empty slot. */
  function BalanceFactor<V>(t: Tree<V>): (b: int)
    ensures t.Nil? ==> b == -1
    ensures t.Node? ==> (b > 0 <==> Height(t.left) > Height(t.right))
    ensures t.Node? ==> Height(t) == 1 + (if b > 0 then Height(t.left) else Height(t.right))
    ensures t.Node? && Avl(t) ==> -1 <= b <= 1
  {
    if t.Nil? then -1 else Height(t.left) - Height(t.right)
  }

  /** Right rotation: the left child p becomes the subtree root and the old
      root takes p's right subtree as its left child. */
  function RotateRight<V>(t: Tree<V>): (r: Tree<V>)
    requires t.Node? && t.left.Node?
    ensures r.Node? && r.key == t.left.key && r.value == t.left.value
    ensures r.right.Node? && r.right.key == t.key
    ensures Elements(r) == Elements(t)
  {
    var p := t.left;
    Node(p.left, p.key, p.value, Node(p.right, t.key, t.value, t.right))
  }

  /** Left rotation: the mirror image of RotateRight. */
  function RotateLeft<V>(t: Tree<V>): (r: Tree<V>)
    requires t.Node? && t.right.Node?
    ensures r.Node? && r.key == t.right.key && r.value == t.right.value
    ensures r.left.Node? && r.left.key == t.key
    ensures Elements(r) == Elements(t)
  {
    var p := t.right;
    Node(Node(t.left, t.key, t.value, p.left), p.key, p.value, p.right)
  }

  /** Right-left double rotation: the inner grandchild t.right.left becomes
      the subtree root, with the old root on its left and the old right child
      on its right. */
  function RotateRightLeft<V>(t: Tree<V>): (r: Tree<V>)
    requires t.Node? && t.right.Node? && t.right.left.Node?
    ensures r.Node? && r.key == t.right.left.key && r.value == t.right.left.value
    ensures r.left.Node? && r.left.key == t.key
    ensures r.right.Node? && r.right.key == t.right.key
    ensures Elements(r) == Elements(t)
  {
    var p := t.right;
    var g := p.left;
    assert Elements(p) == Elements(g.left) + [(g.key, g.value)] + Elements(g.right) + [(p.key, p.value)] + Elements(p.right);
    Node(Node(t.left, t.key, t.value, g.left), g.key, g.value, Node(g.right, p.key, p.value, p.right))
  }

  /** Left-right double rotation: the inner grandchild t.left.right becomes
      the subtree root, with the old left child on its left and the old root
      on its right. */
  function RotateLeftRight<V>(t: Tree<V>): (r: Tree<V>)
    requires t.Node? && t.left.Node? && t.left.right.Node?
    ensures r.Node? && r.key == t.left.right.key && r.value == t.left.right.value
    ensures r.left.Node? && r.left.key == t.left.key
    ensures r.right.Node? && r.right.key == t.key
    ensures Elements(r) == Elements(t)
  {
    var p := t.left;
    var g := p.right;
    assert Elements(p) == Elements(p.left) + [(p.key, p.value)] + Elements(g.left) + [(g.key, g.value)] + Elements(g.right);
    Node(Node(p.left, p.key, p.value, g.left), g.key, g.value, Node(g.right, t.key, t.value, t.right))
  }

  /** On a node more than one level heavier on one side, the child on that
      side exists, and so does the inner grandchild whenever a double
      rotation is chosen: neither the rotations nor the balance factor of the
      child ever meet an empty slot, so the -1 answer for an empty slot is
      never consulted by the rebalancing pass. */
  lemma HeavySideExists<V>(n: Tree<V>)
    requires n.Node?
    ensures BalanceFactor(n) > 1 ==> n.left.Node? && (BalanceFactor(n.left) <= 0 ==> n.left.right.Node?)
    ensures BalanceFactor(n) < -1 ==> n.right.Node? && (BalanceFactor(n.right) > 0 ==> n.right.left.Node?)
  {
    if BalanceFactor(n) > 1 {
      assert Height(n.left) >= 2;
    }
    if BalanceFactor(n) < -1 {
      assert Height(n.right) >= 2;
    }
  }

  /** The decision the source takes at one node once both children have been
      rebalanced (BALST.java:133-148): a left-heavy node is rotated right when
      its left child leans left and left-right otherwise; a right-heavy node
      is rotated right-left when its right child leans left and left
      otherwise. */
  function RebalanceNode<V>(n: Tree<V>): (r: Tree<V>)
    requires n.Node?
    ensures r.Node?
    ensures Elements(r) == Elements(n)
  {
    HeavySideExists(n);
    var bf := BalanceFactor(n);
    if bf > 1 then
      if BalanceFactor(n.left) > 0 then RotateRight(n) else RotateLeftRight(n)
    else if bf < -1 then
      if BalanceFactor(n.right) > 0 then RotateRightLeft(n) else RotateLeft(n)
    else n
  }

  /** The whole-tree pass (BALST.java:125-152): both children are rebalanced
      before the node itself is examined. */
  function Rebalance<V>(t: Tree<V>): (r: Tree<V>)
    ensures Elements(r) == Elements(t)
    ensures r.Nil? <==> t.Nil?
  {
    match t
    case Nil => Nil
    case Node(l, k, v, rt) => RebalanceNode(Node(Rebalance(l), k, v, Rebalance(rt)))
  }

  /** The corrected decision: a left-heavy node whose left child is level
      (balance factor 0) takes a single right rotation, as the mirror case
      already takes a single left rotation. */
  function RebalanceNodeFixed<V>(n: Tree<V>): (r: Tree<V>)
    requires n.Node?
    ensures r.Node?
    ensures Elements(r) == Elements(n)
  {
    HeavySideExists(n);
    var bf := BalanceFactor(n);
    if bf > 1 then
      if BalanceFactor(n.left) >= 0 then RotateRight(n) else RotateLeftRight(n)
    else if bf < -1 then
      if BalanceFactor(n.right) > 0 then RotateRightLeft(n) else RotateLeft(n)
    else n
  }

  /** The whole-tree pass with the corrected decision at every node. */
  function RebalanceFixed<V>(t: Tree<V>): (r: Tree<V>)
    ensures Elements(r) == Elements(t)
    ensures r.Nil? <==> t.Nil?
  {
    match t
    case Nil => Nil
    case Node(l, k, v, rt) => RebalanceNodeFixed(Node(RebalanceFixed(l), k, v, RebalanceFixed(rt)))
  }

  /** Either pass leaves the key set, the count, the represented map and the
      in-order traversal unchanged, and keeps (and only keeps) BST order. */
  lemma RebalanceKeepsContent<V>(t: Tree<V>)
    ensures Keys(Rebalance(t)) == Keys(t) && Size(Rebalance(t)) == Size(t)
    ensures MapOf(Rebalance(t)) == MapOf(t) && InOrder(Rebalance(t)) == InOrder(t)
    ensures Bst(Rebalance(t)) <==> Bst(t)
    ensures Keys(RebalanceFixed(t)) == Keys(t) && Size(RebalanceFixed(t)) == Size(t)
    ensures MapOf(RebalanceFixed(t)) == MapOf(t) && InOrder(RebalanceFixed(t)) == InOrder(t)
    ensures Bst(RebalanceFixed(t)) <==> Bst(t)
  {
    SameElements(Rebalance(t), t);
    SameElements(RebalanceFixed(t), t);
  }

  /** An AVL tree is left exactly as it is by either pass. */
  lemma {:induction false} AvlIsFixpoint<V>(t: Tree<V>)
    requires Avl(t)
    ensures Rebalance(t) == t
    ensures RebalanceFixed(t) == t
  {
    match t
    case Nil =>
    case Node(l, k, v, r) =>
      AvlIsFixpoint(l);
      AvlIsFixpoint(r);
  }

  /** Single right rotation of a node two levels heavier on the left whose
      left child does not lean right. */
  lemma RotateRightAvl<V>(n: Tree<V>)
    requires n.Node? && n.left.Node? && Avl(n.left) && Avl(n.right)
    requires Height(n.left) == Height(n.right) + 2 && BalanceFactor(n.left) >= 0
    ensures Avl(RotateRight(n))
    ensures Height(RotateRight(n)) == Height(n.left) + (if BalanceFactor(n.left) == 0 then 1 else 0)
  {
    var l := n.left;
    var inner := Node(l.right, n.key, n.value, n.right);
    assert Height(l.left) == Height(n.right) + 1;
    assert Height(inner) == Height(l.right) + 1;
    assert Avl(inner);
  }

  /** Left-right rotation of a node two levels heavier on the left whose left
      child leans right. */
  lemma RotateLeftRightAvl<V>(n: Tree<V>)
    requires n.Node? && n.left.Node? && n.left.right.Node? && Avl(n.left) && Avl(n.right)
    requires Height(n.left) == Height(n.right) + 2 && BalanceFactor(n.left) < 0
    ensures Avl(RotateLeftRight(n))
    ensures Height(RotateLeftRight(n)) == Height(n.left)
  {
    var l := n.left;
    var g := l.right;
    var a := Node(l.left, l.key, l.value, g.left);
    var b := Node(g.right, n.key, n.value, n.right);
    assert Height(g) == Height(n.right) + 1 && Height(l.left) == Height(n.right);
    assert Height(a) == Height(n.right) + 1 && Height(b) == Height(n.right) + 1;
    assert Avl(a) && Avl(b);
  }

  /** Right-left rotation of a node two levels heavier on the right whose
      right child leans left. */
  lemma RotateRightLeftAvl<V>(n: Tree<V>)
    requires n.Node? && n.right.Node? && n.right.left.Node? && Avl(n.left) && Avl(n.right)
    requires Height(n.right) == Height(n.left) + 2 && BalanceFactor(n.right) > 0
    ensures Avl(RotateRightLeft(n))
    ensures Height(RotateRightLeft(n)) == Height(n.right)
  {
    var r := n.right;
    var g := r.left;
    var a := Node(n.left, n.key, n.value, g.left);
    var b := Node(g.right, r.key, r.value, r.right);
    assert Height(g) == Height(n.left) + 1 && Height(r.right) == Height(n.left);
    assert Height(a) == Height(n.left) + 1 && Height(b) == Height(n.left) + 1;
    assert Avl(a) && Avl(b);
  }

  /** Single left rotation of a node two levels heavier on the right whose
      right child does not lean left. */
  lemma RotateLeftAvl<V>(n: Tree<V>)
    requires n.Node? && n.right.Node? && Avl(n.left) && Avl(n.right)
    requires Height(n.right) == Height(n.left) + 2 && BalanceFactor(n.right) <= 0
    ensures Avl(RotateLeft(n))
    ensures Height(RotateLeft(n)) == Height(n.right) + (if BalanceFactor(n.right) == 0 then 1 else 0)
  {
    var r := n.right;
    var inner := Node(n.left, n.key, n.value, r.left);
    assert Height(r.right) == Height(n.left) + 1;
    assert Height(inner) == Height(r.left) + 1;
    assert Avl(inner);
  }

  /** One corrected step on a node whose children are AVL and differ in height
      by at most two yields an AVL subtree. Without a rotation nothing moves;
      after one, the height is that of the taller child, plus one exactly
      when that child was level. */
  lemma RebalanceNodeFixedAvl<V>(n: Tree<V>)
    requires n.Node? && Avl(n.left) && Avl(n.right)
    requires -2 <= Height(n.left) - Height(n.right) <= 2
    ensures Avl(RebalanceNodeFixed(n))
    ensures -1 <= Height(n.left) - Height(n.right) <= 1 ==> RebalanceNodeFixed(n) == n
    ensures Height(n.left) == Height(n.right) + 2 ==>
      Height(RebalanceNodeFixed(n)) == Height(n.left) + (if BalanceFactor(n.left) == 0 then 1 else 0)
    ensures Height(n.right) == Height(n.left) + 2 ==>
      Height(RebalanceNodeFixed(n)) == Height(n.right) + (if BalanceFactor(n.right) == 0 then 1 else 0)
  {
    HeavySideExists(n);
    if Height(n.left) == Height(n.right) + 2 {
      if BalanceFactor(n.left) >= 0 { RotateRightAvl(n); } else { RotateLeftRightAvl(n); }
    } else if Height(n.right) == Height(n.left) + 2 {
      if BalanceFactor(n.right) > 0 { RotateRightLeftAvl(n); } else { RotateLeftAvl(n); }
    }
  }

  /** The two decisions differ only on a left-heavy node whose left child is
      level. */
  lemma RebalanceNodeAgree<V>(n: Tree<V>)
    requires n.Node?
    requires !(BalanceFactor(n) > 1 && BalanceFactor(n.left) == 0)
    ensures RebalanceNode(n) == RebalanceNodeFixed(n)
  {
  }
}
