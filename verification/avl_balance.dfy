/**
 * Rotations, rebalancing and depth repair of AVLNode (rotl, rotr, updateDepth,
 * rebalance, getMaxDepth). Each works on the subtree rooted at the node whose
 * child is promoted; the source relinks the parent (or the bucket/root
 * reference) in place, here the caller puts the returned subtree back.
 */
module AvlBalance {
  import opened AvlTree

  /** updateDepth: recompute both counters from the children's cached counters. */
  function UpdateDepth<P>(t: Tree<P>): (r: Tree<P>)
    requires t.Node?
    ensures r.Node? && r.left == t.left && r.right == t.right && r.key == t.key && r.isLeft == t.isLeft
    ensures Items(r) == Items(t) && (SidesOk(r) <==> SidesOk(t))
    ensures Exact(t.left) && Exact(t.right) ==> Exact(r)
  {
    ExactDepth(t.left);
    ExactDepth(t.right);
    t.(depthL := DepthOf(t.left), depthR := DepthOf(t.right))
  }

  /** On an exact subtree the cached counters give the real height. */
  lemma ExactDepth<P>(t: Tree<P>)
    ensures Exact(t) ==> DepthOf(t) == Height(t)
  {
  }

  /** Set the isLeft flag of a subtree's root, if there is one. */
  function WithSide<P>(t: Tree<P>, isLeft: bool): (r: Tree<P>)
    ensures Items(r) == Items(t) && (Exact(t) ==> Exact(r)) && (SidesOk(t) ==> SidesOk(r))
    ensures r.Nil? <==> t.Nil?
    ensures r.Node? ==> r.isLeft == isLeft
  {
    if t.Nil? then Nil else t.(isLeft := isLeft)
  }

  /**
   * rotl applied to the right child of h: that child takes h's place and h,
   * flagged as a left child, becomes its left child; the child's former left
   * subtree becomes h's right subtree, flagged as a right child. h's counters
   * and then the promoted node's counters are recomputed.
   */
  function RotateLeft<P>(h: Tree<P>): (r: Tree<P>)
    requires h.Node? && h.right.Node?
    ensures r.Node? && r.key == h.right.key && r.isLeft == h.isLeft
    ensures Items(r) == Items(h)
    ensures Exact(h.left) && Exact(h.right.left) && Exact(h.right.right) ==> Exact(r)
    ensures SidesOk(h) ==> SidesOk(r)
  {
    var c := h.right;
    var b := WithSide(c.left, false);
    var n1 := Node(h.left, h.key, h.value, true, h.depthL, h.depthR, b);
    var oldhead := UpdateDepth(n1);
    var n2 := Node(oldhead, c.key, c.value, h.isLeft, c.depthL, c.depthR, c.right);
    var r := UpdateDepth(n2);
    assert Items(r) == Items(h.left) + [(h.key, h.value)] + Items(c.left) + [(c.key, c.value)] + Items(c.right);
    assert Items(h) == Items(h.left) + [(h.key, h.value)] + (Items(c.left) + [(c.key, c.value)] + Items(c.right));
    assert Exact(h.left) && Exact(c.left) && Exact(c.right) ==> Exact(oldhead) && Exact(r);
    assert SidesOk(h) ==>
      SidesOk(c) && SidesOk(c.left) && SidesOk(b) && SidesOk(n1) && SidesOk(oldhead) && SidesOk(n2) && SidesOk(r);
    r
  }

  /** rotr applied to the left child of h: the mirror image of RotateLeft. */
  function RotateRight<P>(h: Tree<P>): (r: Tree<P>)
    requires h.Node? && h.left.Node?
    ensures r.Node? && r.key == h.left.key && r.isLeft == h.isLeft
    ensures Items(r) == Items(h)
    ensures Exact(h.right) && Exact(h.left.left) && Exact(h.left.right) ==> Exact(r)
    ensures SidesOk(h) ==> SidesOk(r)
  {
    var c := h.left;
    var b := WithSide(c.right, true);
    var n1 := Node(b, h.key, h.value, false, h.depthL, h.depthR, h.right);
    var oldhead := UpdateDepth(n1);
    var n2 := Node(c.left, c.key, c.value, h.isLeft, c.depthL, c.depthR, oldhead);
    var r := UpdateDepth(n2);
    assert Items(r) == Items(c.left) + [(c.key, c.value)] + Items(c.right) + [(h.key, h.value)] + Items(h.right);
    assert Items(h) == (Items(c.left) + [(c.key, c.value)] + Items(c.right)) + [(h.key, h.value)] + Items(h.right);
    assert Exact(h.right) && Exact(c.left) && Exact(c.right) ==> Exact(oldhead) && Exact(r);
    assert SidesOk(h) ==>
      SidesOk(c) && SidesOk(c.right) && SidesOk(b) && SidesOk(n1) && SidesOk(oldhead) && SidesOk(n2) && SidesOk(r);
    r
  }

  function Abs(x: int): int { if x < 0 then -x else x }

  /**
   * An exact subtree with at least two nodes that does not lean right has a
   * left child, so the double rotation of rebalance always has a node to promote.
   */
  lemma InnerChildExists<P>(c: Tree<P>)
    requires c.Node? && Exact(c) && |Items(c)| >= 2 && Balance(c) <= 0
    ensures c.left.Node?
  {
    assert |Items(c.left)| + |Items(c.right)| >= 1;
    assert c.right.Node? ==> Height(c.right) >= 1;
  }

  lemma InnerChildExistsMirror<P>(c: Tree<P>)
    requires c.Node? && Exact(c) && |Items(c)| >= 2 && Balance(c) >= 0
    ensures c.right.Node?
  {
    assert |Items(c.left)| + |Items(c.right)| >= 1;
    assert c.left.Node? ==> Height(c.left) >= 1;
  }

  /**
   * The rotation step of rebalance for a right-heavy node: rotl of the right
   * child when that child leans right, otherwise rotr of the right child's left
   * child followed by rotl (also when the right child's balance is 0).
   */
  function RotateRightHeavy<P>(t: Tree<P>): (r: Tree<P>)
    requires t.Node? && t.right.Node? && Exact(t.left) && Exact(t.right) && |Items(t.right)| >= 2
    ensures r.Node? && r.isLeft == t.isLeft && Items(r) == Items(t) && Exact(r)
    ensures SidesOk(t) ==> SidesOk(r)
  {
    if Balance(t.right) > 0 then RotateLeft(t)
    else
      InnerChildExists(t.right);
      assert Exact(t.right.left) && Exact(t.right.left.left) && Exact(t.right.left.right);
      var c := RotateRight(t.right);
      assert Exact(c) && Exact(c.left) && Exact(c.right);
      var t2 := t.(right := c);
      assert Items(t2) == Items(t);
      assert SidesOk(t) ==> SidesOk(t2);
      RotateLeft(t2)
  }

  /** The mirror image of RotateRightHeavy for a left-heavy node. */
  function RotateLeftHeavy<P>(t: Tree<P>): (r: Tree<P>)
    requires t.Node? && t.left.Node? && Exact(t.left) && Exact(t.right) && |Items(t.left)| >= 2
    ensures r.Node? && r.isLeft == t.isLeft && Items(r) == Items(t) && Exact(r)
    ensures SidesOk(t) ==> SidesOk(r)
  {
    if Balance(t.left) < 0 then RotateRight(t)
    else
      InnerChildExistsMirror(t.left);
      assert Exact(t.left.right) && Exact(t.left.right.left) && Exact(t.left.right.right);
      var c := RotateLeft(t.left);
      assert Exact(c) && Exact(c.left) && Exact(c.right);
      var t2 := t.(left := c);
      assert Items(t2) == Items(t);
      assert SidesOk(t) ==> SidesOk(t2);
      RotateRight(t2)
  }

  /**
   * rebalance. A node more than two out of balance first rebalances its heavier
   * child (its own counters are left as they were). Then a right-heavy node
   * (balance > 1) and a left-heavy node (balance < -1) are rotated as
   * RotateRightHeavy and RotateLeftHeavy describe. The in-order entries, the
   * side flags and the subtree root's own side flag are preserved, and every
   * counter of the result is exact.
   */
  function Rebalance<P>(t: Tree<P>): (r: Tree<P>)
    requires t.Node? && Exact(t)
    ensures r.Node? && r.isLeft == t.isLeft
    ensures Items(r) == Items(t)
    ensures Exact(r)
    ensures SidesOk(t) ==> SidesOk(r)
    decreases t
  {
    var t1 :=
      if Abs(Balance(t)) > 2 then
        if Balance(t) < -2 then t.(left := Rebalance(t.left)) else t.(right := Rebalance(t.right))
      else t;
    assert Items(t1) == Items(t) && t1.depthL == t.depthL && t1.depthR == t.depthR;
    assert SidesOk(t) ==> SidesOk(t1);
    if Balance(t1) > 1 then
      HeightAtMostCount(t.right);
      RotateRightHeavy(t1)
    else if Balance(t1) < -1 then
      HeightAtMostCount(t.left);
      RotateLeftHeavy(t1)
    else t1
  }

  /**
   * getMaxDepth: recompute, bottom-up, the counters of every side that has a
   * child, and return the larger of the node's two counters. A side without a
   * child keeps whatever counter it had.
   */
  function GetMaxDepth<P>(t: Tree<P>): (r: (Tree<P>, int))
    requires t.Node?
    ensures r.0.Node? && Items(r.0) == Items(t) && r.0.isLeft == t.isLeft
    ensures SidesOk(t) ==> SidesOk(r.0)
    decreases t
  {
    var (right, depthR) :=
      if t.right.Node? then var (x, m) := GetMaxDepth(t.right); (x, 1 + m) else (t.right, t.depthR);
    var (left, depthL) :=
      if t.left.Node? then var (x, m) := GetMaxDepth(t.left); (x, 1 + m) else (t.left, t.depthL);
    (t.(left := left, right := right, depthL := depthL, depthR := depthR), Max(depthL, depthR))
  }

  /** Every side without a child has counter 0 (what a freshly built node has). */
  predicate NullSidesZero<P>(t: Tree<P>) {
    match t
    case Nil => true
    case Node(l, _, _, _, dl, dr, r) =>
      (l.Nil? ==> dl == 0) && (r.Nil? ==> dr == 0) && NullSidesZero(l) && NullSidesZero(r)
  }

  /**
   * getMaxDepth makes a subtree exact exactly when no stale counter sits on a
   * side without a child, and it then returns the subtree's height less one.
   */
  lemma {:induction false} GetMaxDepthRepairs<P>(t: Tree<P>)
    requires t.Node? && NullSidesZero(t)
    ensures Exact(GetMaxDepth(t).0) && GetMaxDepth(t).1 == Height(t) - 1
    decreases t
  {
    if t.right.Node? { GetMaxDepthRepairs(t.right); }
    if t.left.Node? { GetMaxDepthRepairs(t.left); }
  }

  /** A stale counter on a side without a child survives getMaxDepth. */
  lemma GetMaxDepthKeepsNullSide<P>(t: Tree<P>)
    requires t.Node? && t.left.Nil?
    ensures GetMaxDepth(t).0.depthL == t.depthL
  {
  }

  /** On an exact subtree getMaxDepth changes nothing. */
  lemma {:induction false} GetMaxDepthOfExact<P>(t: Tree<P>)
    requires t.Node? && Exact(t)
    ensures GetMaxDepth(t) == (t, Height(t) - 1)
    decreases t
  {
    if t.right.Node? { GetMaxDepthOfExact(t.right); }
    if t.left.Node? { GetMaxDepthOfExact(t.left); }
  }
}
