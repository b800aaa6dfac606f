/**
 * The loops of AVLNode: the search loop shared by the lookups, AddItem,
 * RemoveNode and the two bottom-up repair walks (balanceBubbleUp after an
 * insertion, balanceSelfBubbleUp after a removal).
 *
 * Whether the repair walks always reach the root is not established here:
 * a rebalance can move the walking node further down, and the trees this code
 * builds are not strictly AVL-balanced. Each walk therefore runs for at most
 * `fuel` steps and reports whether it reached the root (`done`). Every
 * structural property holds after any number of steps; the cached counters
 * are guaranteed exact only once the walk has finished.
 */
module AvlWalks {
  import opened AvlTree
  import opened AvlBalance
  import opened AvlPath

  /** Step bound handed to the repair walks by the containers. */
  const WalkFuel: nat := 0x1_0000_0000

  /**
   * The search loop: walk from the root towards key, going left for a smaller
   * key and right for a larger one, until the key or an empty slot is reached.
   * The path is the chain of head links above the node found.
   */
  method Find<P>(root: Tree<P>, key: int) returns (ctx: Path<P>, node: Tree<P>)
    requires Ordered(root)
    ensures Plug(ctx, node) == root
    ensures node.Node? <==> key in Contents(root)
    ensures node.Node? ==> node.key == key && node.value == Contents(root)[key]
    ensures Brackets(ctx, key)
  {
    ctx, node := [], root;
    while node.Node? && node.key != key
      invariant Plug(ctx, node) == root && Ordered(node) && Brackets(ctx, key)
      invariant key in Contents(root) <==> key in Contents(node)
      invariant key in Contents(node) ==> Contents(root)[key] == Contents(node)[key]
      decreases node
    {
      SearchStep(node, key);
      var goLeft := key < node.key;
      var f := FrameOf(node, goLeft);
      FindStep(ctx, node, key);
      assert ([f] + ctx)[1..] == ctx;
      ctx := [f] + ctx;
      node := if goLeft then node.left else node.right;
    }
    if node.Node? {
      SearchStep(node, key);
    }
  }

  /** Every entry before the hole of the path has a smaller key, every entry after it a larger one. */
  predicate Brackets<P>(c: Path<P>, key: int) {
    (forall y :: y in KeysOf(Before(c)) ==> y < key) && (forall y :: y in KeysOf(After(c)) ==> key < y)
  }

  /** One step of the search loop keeps the key between the entries before and after the hole. */
  lemma FindStep<P>(c: Path<P>, n: Tree<P>, key: int)
    requires n.Node? && Ordered(n) && key != n.key && Brackets(c, key)
    ensures Brackets([FrameOf(n, key < n.key)] + c, key)
  {
    var f := FrameOf(n, key < n.key);
    var c' := [f] + c;
    assert c'[1..] == c && c'[0] == f;
    OrderedNode(n);
    var e := [(n.key, n.value)];
    if key < n.key {
      assert Before(c') == Before(c);
      assert After(c') == e + Items(n.right) + After(c);
      KeysOfAppend(e + Items(n.right), After(c));
      KeysOfAppend(e, Items(n.right));
    } else {
      assert After(c') == After(c);
      assert Before(c') == Before(c) + (Items(n.left) + e);
      KeysOfAppend(Before(c), Items(n.left) + e);
      KeysOfAppend(Items(n.left), e);
    }
  }

  // ---------------------------------------------------------------------
  // balanceBubbleUp

  /** Ordered trees have ordered subtrees. */
  lemma OrderedOfPlug<P>(c: Path<P>, t: Tree<P>)
    requires Ordered(Plug(c, t))
    ensures Ordered(t)
  {
    PlugItems(c, t);
    var s := KeysOf(Items(Plug(c, t)));
    KeysOfAppend(Before(c) + Items(t), After(c));
    KeysOfAppend(Before(c), Items(t));
    var k := KeysOf(Items(t));
    var off := |KeysOf(Before(c))|;
    forall i, j | 0 <= i < j < |k| ensures k[i] < k[j] {
      assert k[i] == s[off + i] && k[j] == s[off + j];
    }
  }

  /** Replacing a subtree by one with the same entries leaves the entries of the whole unchanged. */
  lemma SameItemsPlug<P>(c: Path<P>, t: Tree<P>, u: Tree<P>)
    requires Items(u) == Items(t)
    ensures Items(Plug(c, u)) == Items(Plug(c, t))
  {
    PlugItems(c, t);
    PlugItems(c, u);
  }

  /** Retuning the counters of the innermost frame changes neither entries nor side flags. */
  lemma RetuneFrame<P>(c: Path<P>, f: Frame<P>, t: Tree<P>)
    requires c != [] && f == c[0].(depthL := f.depthL, depthR := f.depthR)
    requires SidesOk(Plug(c, t))
    ensures Items(Plug(c[1..], Fill(f, t))) == Items(Plug(c, t))
    ensures SidesOk(Plug(c[1..], Fill(f, t))) && SidesOk(Fill(f, t))
  {
    SameItemsPlug(c[1..], Fill(c[0], t), Fill(f, t));
    SidesOfPlug(c[1..], Fill(c[0], t));
    SidesReplace(c[1..], Fill(c[0], t), Fill(f, t));
  }

  /** The state after a rebalance in a walk: re-find the walking node below the rebalanced subtree. */
  lemma RefindAfterRebalance<P>(c: Path<P>, sub: Tree<P>, k: int)
    requires sub.Node? && Exact(sub) && Ordered(sub) && k in Contents(sub)
    requires SidesOk(sub) && SidesOk(Plug(c, sub))
    ensures var (c2, found) := Descend(Rebalance(sub), k);
      found.Node? && found.key == k && Exact(found) && FramesExact(c2) && SiblingsExact(c2) &&
      Plug(c2 + c, found) == Plug(c, Rebalance(sub)) &&
      Items(Plug(c2 + c, found)) == Items(Plug(c, sub)) &&
      SidesOk(Plug(c2 + c, found))
  {
    var b := Rebalance(sub);
    var (c2, found) := Descend(b, k);
    assert Contents(b) == Contents(sub);
    DescendFinds(b, k);
    ExactOfPlug(c2, found);
    PlugAppend(c2, c, found);
    SameItemsPlug(c, sub, b);
    SidesOfPlug(c, sub);
    SidesReplace(c, sub, b);
  }

  lemma FramesExactTail<P>(c: Path<P>)
    requires c != [] && FramesExact(c)
    ensures FramesExact(c[1..]) && SiblingsExact(c[1..])
  {
    assert forall i :: 0 <= i < |c| - 1 ==> c[1..][i] == c[i + 1];
  }

  lemma FramesExactAppend<P>(c1: Path<P>, c2: Path<P>)
    requires FramesExact(c1) && FramesExact(c2)
    ensures FramesExact(c1 + c2)
  {
    assert forall i :: |c1| <= i < |c1| + |c2| ==> (c1 + c2)[i] == c2[i - |c1|];
  }

  /**
   * balanceBubbleUp, started at the node under which a leaf was just hung.
   * Each step gives the parent's counter on the walking node's side the
   * walking node's depth; a parent then more than one out of balance is
   * rebalanced (and the walk carries on from the same node in its new place),
   * otherwise the walk moves to the parent. The walk ends at the root.
   */
  method BalanceBubbleUp<P>(node: Tree<P>, ctx: Path<P>, fuel: nat) returns (t: Tree<P>, done: bool)
    requires node.Node? && Exact(node) && FramesExact(ctx)
    requires SidesOk(Plug(ctx, node)) && Ordered(Plug(ctx, node))
    ensures t.Node? && Items(t) == Items(Plug(ctx, node)) && SidesOk(t)
    ensures done ==> Exact(t)
  {
    var focus, path, steps := node, ctx, fuel;
    while path != [] && steps > 0
      invariant focus.Node? && Exact(focus) && FramesExact(path)
      invariant SidesOk(Plug(path, focus)) && Items(Plug(path, focus)) == Items(Plug(ctx, node))
      decreases steps
    {
      steps := steps - 1;
      var f := path[0];
      SidesOfPlug(path, focus);
      FramesExactTail(path);
      var d := Max(focus.depthL, focus.depthR) + 1;
      var f' := if focus.isLeft then f.(depthL := d) else f.(depthR := d);
      var parent := Fill(f', focus);
      ExactDepth(focus);
      assert Exact(parent);
      RetuneFrame(path, f', focus);
      if Abs(Balance(parent)) > 1 {
        assert Ordered(parent) && focus.key in Contents(parent) by {
          SameItemsPlug(path[1..], parent, Fill(f, focus));
          OrderedOfPlug(path[1..], parent);
          ContentsNode(parent);
          ContentsNode(focus);
        }
        RefindAfterRebalance(path[1..], parent, focus.key);
        var (c2, found) := Descend(Rebalance(parent), focus.key);
        FramesExactAppend(c2, path[1..]);
        focus, path := found, c2 + path[1..];
      } else {
        focus, path := parent, path[1..];
      }
    }
    t := Plug(path, focus);
    done := path == [];
    PlugNode(path, focus);
  }

  lemma {:induction false} PlugNode<P>(c: Path<P>, t: Tree<P>)
    requires t.Node? || c != []
    ensures Plug(c, t).Node?
    decreases |c|
  {
    if c != [] {
      PlugNode(c[1..], Fill(c[0], t));
    }
  }

  // ---------------------------------------------------------------------
  // balanceSelfBubbleUp

  lemma SiblingsExactTail<P>(c: Path<P>)
    requires c != [] && SiblingsExact(c)
    ensures SiblingsExact(c[1..])
  {
    assert forall i :: 0 <= i < |c| - 1 ==> c[1..][i] == c[i + 1];
  }

  lemma SiblingsExactAppend<P>(c1: Path<P>, c2: Path<P>)
    requires SiblingsExact(c1) && SiblingsExact(c2)
    ensures SiblingsExact(c1 + c2)
  {
    assert forall i :: |c1| <= i < |c1| + |c2| ==> (c1 + c2)[i] == c2[i - |c1|];
  }

  /**
   * balanceSelfBubbleUp, started at the node whose subtree lost a node. Each
   * step recomputes the walking node's counters with getMaxDepth on both
   * children; a node more than one out of balance is rebalanced (the walk
   * then carries on from the same node in its new place), otherwise the walk
   * moves to the parent, and ends after the root.
   */
  method BalanceSelfBubbleUp<P>(node: Tree<P>, ctx: Path<P>, fuel: nat) returns (t: Tree<P>, done: bool)
    requires node.Node? && Exact(node.left) && Exact(node.right) && SiblingsExact(ctx)
    requires SidesOk(Plug(ctx, node)) && Ordered(Plug(ctx, node))
    ensures t.Node? && Items(t) == Items(Plug(ctx, node)) && SidesOk(t)
    ensures done ==> Exact(t)
  {
    var focus, path, steps := node, ctx, fuel;
    done := false;
    while !done && steps > 0
      invariant focus.Node? && Exact(focus.left) && Exact(focus.right) && SiblingsExact(path)
      invariant SidesOk(Plug(path, focus)) && Items(Plug(path, focus)) == Items(Plug(ctx, node))
      invariant done ==> path == [] && Exact(focus)
      decreases steps
    {
      steps := steps - 1;
      var left, depthL := focus.left, 0;
      if focus.left.Node? {
        GetMaxDepthOfExact(focus.left);
        var (l, m) := GetMaxDepth(focus.left);
        left, depthL := l, m + 1;
      }
      var right, depthR := focus.right, 0;
      if focus.right.Node? {
        GetMaxDepthOfExact(focus.right);
        var (r, m) := GetMaxDepth(focus.right);
        right, depthR := r, m + 1;
      }
      var old_focus := focus;
      focus := focus.(left := left, right := right, depthL := depthL, depthR := depthR);
      assert Exact(focus);
      SameItemsPlug(path, old_focus, focus);
      SidesOfPlug(path, old_focus);
      SidesReplace(path, old_focus, focus);
      if Abs(Balance(focus)) > 1 {
        assert Ordered(focus) && focus.key in Contents(focus) by {
          OrderedOfPlug(path, focus);
          ContentsNode(focus);
        }
        RefindAfterRebalance(path, focus, focus.key);
        var (c2, found) := Descend(Rebalance(focus), focus.key);
        SiblingsExactAppend(c2, path);
        focus, path := found, c2 + path;
      } else if path == [] {
        done := true;
      } else {
        SiblingsExactTail(path);
        focus, path := Fill(path[0], focus), path[1..];
      }
    }
    t := Plug(path, focus);
    PlugNode(path, focus);
  }

  // ---------------------------------------------------------------------
  // RemoveNode

  /** Hanging x where node was, under a frame whose counters were retuned. */
  lemma ReplaceChild<P>(ctx: Path<P>, node: Tree<P>, x: Tree<P>, f: Frame<P>)
    requires ctx != [] && node.Node? && SidesOk(Plug(ctx, node))
    requires SidesOk(x) && (x.Node? ==> x.isLeft == node.isLeft)
    requires f == ctx[0].(depthL := f.depthL, depthR := f.depthR)
    ensures SidesOk(Plug(ctx[1..], Fill(f, x)))
    ensures Items(Plug(ctx[1..], Fill(f, x))) == Before(ctx) + Items(x) + After(ctx)
  {
    SidesOfPlug(ctx, node);
    SidesReplace(ctx, node, x);
    RetuneFrame(ctx, f, x);
    PlugItems(ctx, x);
  }

  /** All frames of a path that only ever went left contribute nothing before the hole. */
  lemma {:induction false} BeforeAllLeft<P>(c: Path<P>)
    requires forall i :: 0 <= i < |c| ==> c[i].goLeft
    ensures Before(c) == []
    decreases |c|
  {
    if c != [] {
      assert forall i :: 0 <= i < |c| - 1 ==> c[1..][i] == c[i + 1];
      BeforeAllLeft(c[1..]);
    }
  }

  lemma {:induction false} PlugRootFlag<P>(c: Path<P>, x: Tree<P>, y: Tree<P>)
    requires x.Node? && y.Node? && x.isLeft == y.isLeft
    ensures Plug(c, x).Node? && Plug(c, y).Node? && Plug(c, x).isLeft == Plug(c, y).isLeft
    decreases |c|
  {
    if c != [] {
      PlugRootFlag(c[1..], Fill(c[0], x), Fill(c[0], y));
    }
  }

  /**
   * RemoveNode: take node out of the tree whose path above it is ctx.
   * A leaf is unhooked (the parent's counter on its side becomes 0); a node
   * with one child is replaced by that child (the parent's counter drops by
   * one); a node with two children is replaced by its in-order successor, the
   * leftmost node of its right subtree, whose own right subtree takes the
   * successor's old place. The repair walk then starts at the lowest node
   * whose children changed.
   */
  method RemoveNode<P>(node: Tree<P>, ctx: Path<P>, fuel: nat) returns (t: Tree<P>, done: bool)
    requires node.Node? && Exact(Plug(ctx, node)) && WellFormed(Plug(ctx, node))
    ensures Items(t) == Before(ctx) + Items(node.left) + Items(node.right) + After(ctx)
    ensures SidesOk(t)
    ensures done ==> Exact(t)
    ensures t.Nil? ==> done
  {
    ExactOfPlug(ctx, node);
    SidesOfPlug(ctx, node);
    PlugItems(ctx, node);
    if node.left.Node? && node.right.Node? {
      t, done := RemoveWithSuccessor(node, ctx, fuel);
    } else if ctx == [] {
      t := if node.right.Node? then node.right else node.left;
      done := true;
    } else {
      t, done := RemoveBelowParent(node, ctx, fuel);
    }
  }

  /**
   * A node with at most one child and a parent: the child (or nothing) takes
   * its place with the node's side flag, the parent's counter on that side is
   * set to 0 for a leaf and lowered by one otherwise, and the walk starts at
   * the parent.
   */
  method RemoveBelowParent<P>(node: Tree<P>, ctx: Path<P>, fuel: nat) returns (t: Tree<P>, done: bool)
    requires node.Node? && (node.left.Nil? || node.right.Nil?) && ctx != []
    requires Exact(node) && SiblingsExact(ctx) && SidesOk(Plug(ctx, node)) && Ordered(Plug(ctx, node))
    ensures t.Node? && Items(t) == Before(ctx) + Items(node.left) + Items(node.right) + After(ctx)
    ensures SidesOk(t)
    ensures done ==> Exact(t)
  {
    var f := ctx[0];
    var moved: Tree<P> := if node.left.Nil? && node.right.Nil? then Nil
      else WithSide(if node.right.Node? then node.right else node.left, node.isLeft);
    var f': Frame<P> :=
      if moved.Nil? then (if node.isLeft then f.(depthL := 0) else f.(depthR := 0))
      else if node.isLeft then f.(depthL := f.depthL - 1) else f.(depthR := f.depthR - 1);
    UnhookFacts(node, ctx, moved, f');
    t, done := BalanceSelfBubbleUp(Fill(f', moved), ctx[1..], fuel);
  }

  /** What the repair walk needs once node has been replaced by its only subtree (or by nothing). */
  lemma {:induction false} UnhookFacts<P>(node: Tree<P>, ctx: Path<P>, moved: Tree<P>, f: Frame<P>)
    requires node.Node? && (node.left.Nil? || node.right.Nil?) && ctx != []
    requires Exact(node) && SiblingsExact(ctx) && SidesOk(Plug(ctx, node)) && Ordered(Plug(ctx, node))
    requires moved == if node.left.Nil? && node.right.Nil? then Nil
      else WithSide(if node.right.Node? then node.right else node.left, node.isLeft)
    requires f == ctx[0].(depthL := f.depthL, depthR := f.depthR)
    ensures Exact(Fill(f, moved).left) && Exact(Fill(f, moved).right) && SiblingsExact(ctx[1..])
    ensures SidesOk(Plug(ctx[1..], Fill(f, moved))) && Ordered(Plug(ctx[1..], Fill(f, moved)))
    ensures Items(Plug(ctx[1..], Fill(f, moved))) == Before(ctx) + Items(node.left) + Items(node.right) + After(ctx)
  {
    SidesOfPlug(ctx, node);
    assert Items(moved) == Items(node.left) + Items(node.right);
    assert SidesOk(moved);
    ReplaceChild(ctx, node, moved, f);
    RemovedOrdered(ctx, node, moved);
    PlugItems(ctx, moved);
    Regroup3(Before(ctx), Items(node.left), Items(node.right), After(ctx));
    SiblingsExactTail(ctx);
    assert Exact(ctx[0].sibling);
  }

  /**
   * A node with two children: its in-order successor (the leftmost node of
   * the right subtree) takes its place, with the node's left subtree and side
   * flag. When the successor is the right child itself the walk starts at the
   * successor; otherwise the successor's right subtree moves up into its
   * parent's left slot, that parent's left counter is lowered by one (or set
   * to 0 when there is no such subtree), and the walk starts at that parent.
   */
  method RemoveWithSuccessor<P>(node: Tree<P>, ctx: Path<P>, fuel: nat) returns (t: Tree<P>, done: bool)
    requires node.Node? && node.left.Node? && node.right.Node?
    requires Exact(node) && SiblingsExact(ctx) && SidesOk(Plug(ctx, node)) && Ordered(Plug(ctx, node))
    ensures t.Node? && Items(t) == Before(ctx) + Items(node.left) + Items(node.right) + After(ctx)
    ensures SidesOk(t)
    ensures done ==> Exact(t)
  {
    var spine, child := Leftmost(node.right);
    if spine == [] {
      var moved := Node(node.left, child.key, child.value, node.isLeft, child.depthL, child.depthR, child.right);
      AdoptRightChild(node, ctx, moved);
      t, done := BalanceSelfBubbleUp(moved, ctx, fuel);
    } else {
      var ch := spine[0];
      var ch' := if child.right.Node? then ch.(depthL := ch.depthL - 1) else ch.(depthL := 0);
      var sub := Fill(ch', WithSide(child.right, true));
      var top := Frame(false, child.key, child.value, node.isLeft, child.depthL, child.depthR, node.left);
      var path := spine[1..] + ([top] + ctx);
      SpliceSuccessor(node, ctx, spine, child, ch', sub, top, path);
      t, done := BalanceSelfBubbleUp(sub, path, fuel);
    }
  }

  /** What the repair walk needs once node's right child, which has no left child, has taken its place. */
  lemma {:induction false} AdoptRightChild<P>(node: Tree<P>, ctx: Path<P>, moved: Tree<P>)
    requires node.Node? && node.right.Node? && node.right.left.Nil?
    requires Exact(node) && SidesOk(Plug(ctx, node)) && Ordered(Plug(ctx, node))
    requires moved == Node(node.left, node.right.key, node.right.value, node.isLeft,
                           node.right.depthL, node.right.depthR, node.right.right)
    ensures Exact(moved.left) && Exact(moved.right)
    ensures SidesOk(Plug(ctx, moved)) && Ordered(Plug(ctx, moved))
    ensures Items(Plug(ctx, moved)) == Before(ctx) + Items(node.left) + Items(node.right) + After(ctx)
  {
    SidesOfPlug(ctx, node);
    var r := node.right;
    assert Exact(r) && Exact(r.right);
    assert SidesOk(r) && SidesOk(moved);
    assert Items(r) == [(r.key, r.value)] + Items(r.right);
    ReplaceRemoved(ctx, node, moved);
  }

  /** The leftmost node of a subtree and the path down to it. */
  method Leftmost<P>(t: Tree<P>) returns (spine: Path<P>, child: Tree<P>)
    requires t.Node?
    ensures child.Node? && child.left.Nil? && Plug(spine, child) == t
    ensures forall i :: 0 <= i < |spine| ==> spine[i].goLeft
  {
    child := t;
    spine := [];
    while child.left.Node?
      invariant child.Node? && Plug(spine, child) == t
      invariant forall i :: 0 <= i < |spine| ==> spine[i].goLeft
      decreases child
    {
      var f := FrameOf(child, true);
      assert ([f] + spine)[1..] == spine;
      spine := [f] + spine;
      child := child.left;
    }
  }

  /** What the repair walk needs once the successor has been spliced into node's place. */
  lemma {:induction false} SpliceSuccessor<P>(node: Tree<P>, ctx: Path<P>, spine: Path<P>, child: Tree<P>, ch: Frame<P>,
                           sub: Tree<P>, top: Frame<P>, path: Path<P>)
    requires node.Node? && node.left.Node? && node.right.Node?
    requires Exact(node) && SiblingsExact(ctx) && SidesOk(Plug(ctx, node)) && Ordered(Plug(ctx, node))
    requires child.Node? && child.left.Nil? && Plug(spine, child) == node.right && spine != []
    requires forall i :: 0 <= i < |spine| ==> spine[i].goLeft
    requires ch == spine[0].(depthL := ch.depthL) && sub == Fill(ch, WithSide(child.right, true))
    requires top == Frame(false, child.key, child.value, node.isLeft, child.depthL, child.depthR, node.left)
    requires path == spine[1..] + ([top] + ctx)
    ensures Items(Plug(path, sub)) == Before(ctx) + Items(node.left) + Items(node.right) + After(ctx)
    ensures SidesOk(Plug(path, sub)) && Ordered(Plug(path, sub))
    ensures Exact(sub.left) && Exact(sub.right) && SiblingsExact(path)
  {
    SpliceShape(node, ctx, spine, child, ch, sub, top, path);
    SpliceCounters(node, ctx, spine, child, ch, sub, top, path);
  }

  /** The splice keeps the entries (less node's own), their order and the side flags. */
  lemma {:induction false} SpliceShape<P>(node: Tree<P>, ctx: Path<P>, spine: Path<P>, child: Tree<P>, ch: Frame<P>,
                           sub: Tree<P>, top: Frame<P>, path: Path<P>)
    requires node.Node? && node.left.Node? && node.right.Node?
    requires SidesOk(Plug(ctx, node)) && Ordered(Plug(ctx, node))
    requires child.Node? && child.left.Nil? && Plug(spine, child) == node.right && spine != []
    requires forall i :: 0 <= i < |spine| ==> spine[i].goLeft
    requires ch == spine[0].(depthL := ch.depthL) && sub == Fill(ch, WithSide(child.right, true))
    requires top == Frame(false, child.key, child.value, node.isLeft, child.depthL, child.depthR, node.left)
    requires path == spine[1..] + ([top] + ctx)
    ensures Items(Plug(path, sub)) == Before(ctx) + Items(node.left) + Items(node.right) + After(ctx)
    ensures SidesOk(Plug(path, sub)) && Ordered(Plug(path, sub))
  {
    SidesOfPlug(ctx, node);
    var moved := SpliceMoved(node, spine, child, ch, sub, top);
    PlugAppend(spine[1..], [top] + ctx, sub);
    PlugAppend([top], ctx, Plug(spine[1..], sub));
    ReplaceRemoved(ctx, node, moved);
  }

  /** The node that takes node's place: the successor's entry over node's left subtree and the shrunk right subtree. */
  lemma {:induction false} SpliceMoved<P>(node: Tree<P>, spine: Path<P>, child: Tree<P>, ch: Frame<P>,
                           sub: Tree<P>, top: Frame<P>) returns (moved: Tree<P>)
    requires node.Node? && node.left.Node? && node.right.Node? && SidesOk(node)
    requires child.Node? && child.left.Nil? && Plug(spine, child) == node.right && spine != []
    requires forall i :: 0 <= i < |spine| ==> spine[i].goLeft
    requires ch == spine[0].(depthL := ch.depthL) && sub == Fill(ch, WithSide(child.right, true))
    requires top == Frame(false, child.key, child.value, node.isLeft, child.depthL, child.depthR, node.left)
    ensures moved == Fill(top, Plug(spine[1..], sub))
    ensures moved.Node? && moved.isLeft == node.isLeft && SidesOk(moved)
    ensures Items(moved) == Items(node.left) + Items(node.right)
  {
    var shrunk := Plug(spine[1..], sub);
    SuccessorFacts(node, spine, child, ch, sub, shrunk);
    PlugRootFlag(spine[1..], Fill(spine[0], child), sub);
    moved := Fill(top, shrunk);
    assert Items(moved) == Items(node.left) + [(child.key, child.value)] + Items(shrunk);
  }

  /** Putting a subtree with node's entries less node's own, and node's side flag, in node's place. */
  lemma {:induction false} ReplaceRemoved<P>(ctx: Path<P>, node: Tree<P>, moved: Tree<P>)
    requires node.Node? && moved.Node? && moved.isLeft == node.isLeft && SidesOk(moved)
    requires SidesOk(Plug(ctx, node)) && Ordered(Plug(ctx, node))
    requires Items(moved) == Items(node.left) + Items(node.right)
    ensures SidesOk(Plug(ctx, moved)) && Ordered(Plug(ctx, moved))
    ensures Items(Plug(ctx, moved)) == Before(ctx) + Items(node.left) + Items(node.right) + After(ctx)
  {
    SidesOfPlug(ctx, node);
    SidesReplace(ctx, node, moved);
    PlugItems(ctx, moved);
    RemovedOrdered(ctx, node, moved);
    Regroup3(Before(ctx), Items(node.left), Items(node.right), After(ctx));
  }

  /** After the splice, the lifted subtree and every frame's other child keep exact counters. */
  lemma {:induction false} SpliceCounters<P>(node: Tree<P>, ctx: Path<P>, spine: Path<P>, child: Tree<P>, ch: Frame<P>,
                           sub: Tree<P>, top: Frame<P>, path: Path<P>)
    requires node.Node? && node.left.Node? && node.right.Node?
    requires Exact(node) && SiblingsExact(ctx)
    requires child.Node? && Plug(spine, child) == node.right && spine != []
    requires ch == spine[0].(depthL := ch.depthL) && sub == Fill(ch, WithSide(child.right, true))
    requires top == Frame(false, child.key, child.value, node.isLeft, child.depthL, child.depthR, node.left)
    requires path == spine[1..] + ([top] + ctx)
    ensures Exact(sub.left) && Exact(sub.right) && SiblingsExact(path)
  {
    ExactOfPlug(spine, child);
    SiblingsExactTail(spine);
    assert Exact(spine[0].sibling);
    SiblingsExactAppend([top], ctx);
    SiblingsExactAppend(spine[1..], [top] + ctx);
  }

  lemma Regroup5<T>(b: seq<T>, l: seq<T>, e: T, r: seq<T>, a: seq<T>)
    ensures b + (l + [e] + r) + a == (b + l) + [e] + (r + a)
  {
  }

  lemma Regroup3<T>(b: seq<T>, l: seq<T>, r: seq<T>, a: seq<T>)
    ensures b + (l + r) + a == b + l + r + a
  {
  }

  lemma Regroup4<T>(b: seq<T>, l: seq<T>, r: seq<T>, a: seq<T>)
    ensures b + (l + r) + a == (b + l) + (r + a)
  {
  }

  /** The tree with node's entry taken out stays ordered. */
  lemma RemovedOrdered<P>(ctx: Path<P>, node: Tree<P>, x: Tree<P>)
    requires node.Node? && Ordered(Plug(ctx, node))
    requires Items(x) == Items(node.left) + Items(node.right)
    ensures Ordered(Plug(ctx, x))
  {
    PlugItems(ctx, node);
    PlugItems(ctx, x);
    var bef, aft := Before(ctx), After(ctx);
    var l, r := Items(node.left), Items(node.right);
    var e := (node.key, node.value);
    assert Items(node) == l + [e] + r;
    Regroup5(bef, l, e, r, aft);
    Regroup4(bef, l, r, aft);
    RemoveEntry(bef + l, e, r + aft);
  }

  /** Entries and side flags of the right subtree once its leftmost node is lifted out. */
  lemma SuccessorFacts<P>(node: Tree<P>, spine: Path<P>, child: Tree<P>, ch: Frame<P>, sub: Tree<P>, shrunk: Tree<P>)
    requires node.Node? && node.right.Node? && spine != [] && child.Node? && child.left.Nil?
    requires Plug(spine, child) == node.right && SidesOk(node.right)
    requires forall i :: 0 <= i < |spine| ==> spine[i].goLeft
    requires ch == spine[0].(depthL := ch.depthL) && sub == Fill(ch, WithSide(child.right, true))
    requires shrunk == Plug(spine[1..], sub)
    ensures Items(node.right) == [(child.key, child.value)] + Items(shrunk)
    ensures SidesOk(sub) && SidesOk(shrunk)
  {
    var rest := spine[1..];
    assert forall i :: 0 <= i < |rest| ==> rest[i] == spine[i + 1];
    assert Plug(spine, child) == Plug(rest, Fill(spine[0], child));
    SuccessorItems(rest, spine[0], child, ch, sub);
    SuccessorSides(rest, spine[0], child, ch, sub);
  }

  lemma SuccessorItems<P>(rest: Path<P>, c0: Frame<P>, child: Tree<P>, ch: Frame<P>, sub: Tree<P>)
    requires child.Node? && child.left.Nil? && c0.goLeft
    requires forall i :: 0 <= i < |rest| ==> rest[i].goLeft
    requires ch == c0.(depthL := ch.depthL) && sub == Fill(ch, WithSide(child.right, true))
    ensures Items(Plug(rest, Fill(c0, child))) == [(child.key, child.value)] + Items(Plug(rest, sub))
  {
    BeforeAllLeft(rest);
    PlugItems(rest, Fill(c0, child));
    PlugItems(rest, sub);
    var ce, c0e := (child.key, child.value), (c0.key, c0.value);
    var cr, sib, aft := Items(child.right), Items(c0.sibling), After(rest);
    assert Items(child) == [ce] + cr;
    assert Items(Fill(c0, child)) == [ce] + cr + [c0e] + sib;
    assert Items(sub) == cr + [c0e] + sib;
  }

  lemma SuccessorSides<P>(rest: Path<P>, c0: Frame<P>, child: Tree<P>, ch: Frame<P>, sub: Tree<P>)
    requires child.Node? && child.left.Nil? && c0.goLeft && SidesOk(Plug(rest, Fill(c0, child)))
    requires ch == c0.(depthL := ch.depthL) && sub == Fill(ch, WithSide(child.right, true))
    ensures SidesOk(sub) && SidesOk(Plug(rest, sub))
  {
    SidesOfPlug(rest, Fill(c0, child));
    assert SidesOk(child);
    assert SidesOk(sub);
    SidesReplace(rest, Fill(c0, child), sub);
  }

  // ---------------------------------------------------------------------
  // AddItem

  /**
   * AddItem: search for key from the root. On a hit only the stored payload changes
   * (to update of the old one). On a miss a new leaf with both counters 0
   * is hung in the empty slot, flagged for the side it hangs on; the parent's
   * counter on that side becomes 1 and balanceBubbleUp starts at the parent.
   */
  method AddItem<P>(root: Tree<P>, key: int, payload: P, update: P -> P, fuel: nat)
    returns (t: Tree<P>, added: bool, done: bool)
    requires root.Node? && Exact(root) && WellFormed(root)
    ensures added <==> key !in Contents(root)
    ensures Contents(t) == Contents(root)[key := if added then payload else update(Contents(root)[key])]
    ensures t.Node? && WellFormed(t)
    ensures |Items(t)| == |Items(root)| + (if added then 1 else 0)
    ensures done ==> Exact(t)
    ensures !added ==> done
  {
    var ctx, node := Find(root, key);
    if node.Node? {
      var w := update(node.value);
      ReplacePayload(ctx, node, w);
      t, added, done := Plug(ctx, node.(value := w)), false, true;
    } else {
      var f := ctx[0];
      var leaf := Node(Nil, key, payload, f.goLeft, 0, 0, Nil);
      var f' := if f.goLeft then f.(depthL := 1) else f.(depthR := 1);
      HangLeaf(ctx, key, payload, leaf, f');
      t, done := BalanceBubbleUp(Fill(f', leaf), ctx[1..], fuel);
      added := true;
    }
  }

  /** Replacing a subtree by an exact one of the same height keeps the whole tree exact. */
  lemma {:induction false} ExactReplace<P>(c: Path<P>, t: Tree<P>, u: Tree<P>)
    requires Exact(Plug(c, t)) && Exact(u) && Height(u) == Height(t)
    ensures Exact(Plug(c, u))
    decreases |c|
  {
    if c != [] {
      ExactOfPlug(c[1..], Fill(c[0], t));
      ExactReplace(c[1..], Fill(c[0], t), Fill(c[0], u));
    }
  }

  /** The hit case of AddItem: a new payload for an existing key. */
  lemma {:induction false} ReplacePayload<P>(ctx: Path<P>, node: Tree<P>, w: P)
    requires node.Node? && Exact(Plug(ctx, node)) && WellFormed(Plug(ctx, node))
    ensures Exact(Plug(ctx, node.(value := w))) && WellFormed(Plug(ctx, node.(value := w)))
    ensures Contents(Plug(ctx, node.(value := w))) == Contents(Plug(ctx, node))[node.key := w]
    ensures |Items(Plug(ctx, node.(value := w)))| == |Items(Plug(ctx, node))|
  {
    var u := node.(value := w);
    ExactOfPlug(ctx, node);
    ExactReplace(ctx, node, u);
    SidesOfPlug(ctx, node);
    SidesReplace(ctx, node, u);
    PlugItems(ctx, node);
    PlugItems(ctx, u);
    var bef, aft, l, r := Before(ctx), After(ctx), Items(node.left), Items(node.right);
    Regroup5(bef, l, (node.key, node.value), r, aft);
    Regroup5(bef, l, (node.key, w), r, aft);
    ReplaceEntry(bef + l, node.key, node.value, w, r + aft);
  }

  /** The miss case of AddItem: a new leaf in the empty slot the search ended at. */
  lemma {:induction false} HangLeaf<P>(ctx: Path<P>, key: int, payload: P, leaf: Tree<P>, f: Frame<P>)
    requires ctx != [] && Exact(Plug(ctx, Nil)) && WellFormed(Plug(ctx, Nil)) && Brackets(ctx, key)
    requires leaf == Node(Nil, key, payload, ctx[0].goLeft, 0, 0, Nil)
    requires f == if ctx[0].goLeft then ctx[0].(depthL := 1) else ctx[0].(depthR := 1)
    ensures Exact(Fill(f, leaf)) && FramesExact(ctx[1..])
    ensures SidesOk(Plug(ctx[1..], Fill(f, leaf))) && Ordered(Plug(ctx[1..], Fill(f, leaf)))
    ensures key !in Contents(Plug(ctx, Nil))
    ensures Contents(Plug(ctx[1..], Fill(f, leaf))) == Contents(Plug(ctx, Nil))[key := payload]
    ensures |Items(Plug(ctx[1..], Fill(f, leaf)))| == |Items(Plug(ctx, Nil))| + 1
  {
    ExactOfPlug(ctx, Nil);
    FramesExactTail(ctx);
    SidesReplace(ctx, Nil, leaf);
    RetuneFrame(ctx, f, leaf);
    PlugItems(ctx, Nil);
    PlugItems(ctx, leaf);
    var bef, aft := Before(ctx), After(ctx);
    assert Items(Plug(ctx, Nil)) == bef + aft;
    assert Items(Plug(ctx, leaf)) == bef + [(key, payload)] + aft;
    InsertEntry(bef, (key, payload), aft);
  }

  // ---------------------------------------------------------------------
  // FindRemoveKey and FindRemoveItem

  /**
   * The search loop of FindRemoveKey and FindRemoveItem followed by RemoveNode.
   * The node holding key is removed when accept holds for its payload: any
   * payload for FindRemoveKey, one whose value Equals the given value for
   * FindRemoveItem. The removed payload is returned.
   */
  method FindRemove<P>(root: Tree<P>, key: int, accept: P -> bool, fuel: nat)
    returns (t: Tree<P>, removed: Option<P>, done: bool)
    requires Exact(root) && WellFormed(root)
    ensures removed.Some? <==> key in Contents(root) && accept(Contents(root)[key])
    ensures removed.Some? ==> removed.value == Contents(root)[key]
    ensures Contents(t) == if removed.Some? then Contents(root) - {key} else Contents(root)
    ensures WellFormed(t)
    ensures |Items(t)| == |Items(root)| - (if removed.Some? then 1 else 0)
    ensures done ==> Exact(t)
    ensures removed.None? ==> t == root && done
  {
    var ctx, node := Find(root, key);
    if node.Node? && accept(node.value) {
      t, done := RemoveNode(node, ctx, fuel);
      RemovedContents(ctx, node);
      removed := Some(node.value);
      assert Ordered(t) by {
        KeysOfAppend(Before(ctx) + Items(node.left) + Items(node.right), After(ctx));
      }
    } else {
      t, removed, done := root, None, true;
    }
  }

  /**
   * RemoveNode on the node holding key, reached by its key: what the queue's
   * eviction does with the node linked to the oldest element.
   */
  method RemoveKey<P>(root: Tree<P>, key: int, fuel: nat) returns (t: Tree<P>, done: bool)
    requires Exact(root) && WellFormed(root) && key in Contents(root)
    ensures Contents(t) == Contents(root) - {key}
    ensures WellFormed(t)
    ensures |Items(t)| == |Items(root)| - 1
    ensures done ==> Exact(t)
  {
    var (ctx, node) := Descend(root, key);
    DescendFinds(root, key);
    t, done := RemoveNode(node, ctx, fuel);
    RemovedContents(ctx, node);
    assert Ordered(t) by {
      KeysOfAppend(Before(ctx) + Items(node.left) + Items(node.right), After(ctx));
    }
  }

  /** The entries left once node is taken out describe the dictionary without node's key. */
  lemma {:induction false} RemovedContents<P>(ctx: Path<P>, node: Tree<P>)
    requires node.Node? && Ordered(Plug(ctx, node))
    ensures var s := Before(ctx) + Items(node.left) + Items(node.right) + After(ctx);
      Increasing(KeysOf(s)) && ToMap(s) == Contents(Plug(ctx, node)) - {node.key} &&
      |s| == |Items(Plug(ctx, node))| - 1
  {
    PlugItems(ctx, node);
    var bef, aft := Before(ctx), After(ctx);
    var l, r := Items(node.left), Items(node.right);
    var e := (node.key, node.value);
    assert Items(node) == l + [e] + r;
    Regroup5(bef, l, e, r, aft);
    assert bef + l + r + aft == (bef + l) + (r + aft);
    RemoveEntry(bef + l, e, r + aft);
  }
}
