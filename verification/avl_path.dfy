/**
 * Parent links of AVLNode as a path. A Frame is a node seen from one of its
 * children: which side the child hangs on, the node's own fields and the
 * other child. A Path lists the frames from the child's parent up to the root,
 * so following node.head is taking the next frame.
 */
module AvlPath {
  import opened AvlTree

  datatype Frame<P> = Frame(goLeft: bool, key: int, value: P, isLeft: bool, depthL: int, depthR: int, sibling: Tree<P>)

  type Path<P> = seq<Frame<P>>

  /** The parent node rebuilt around the child t. */
  function Fill<P>(f: Frame<P>, t: Tree<P>): Tree<P> {
    if f.goLeft then Node(t, f.key, f.value, f.isLeft, f.depthL, f.depthR, f.sibling)
    else Node(f.sibling, f.key, f.value, f.isLeft, f.depthL, f.depthR, t)
  }

  /** The whole tree rebuilt around the subtree t. */
  function Plug<P>(c: Path<P>, t: Tree<P>): Tree<P>
    decreases |c|
  {
    if c == [] then t else Plug(c[1..], Fill(c[0], t))
  }

  /** The frame for node t when the walk goes into its left (goLeft) or right child. */
  function FrameOf<P>(t: Tree<P>, goLeft: bool): (f: Frame<P>)
    requires t.Node?
    ensures Fill(f, if goLeft then t.left else t.right) == t
  {
    Frame(goLeft, t.key, t.value, t.isLeft, t.depthL, t.depthR, if goLeft then t.right else t.left)
  }

  /** Entries of the tree that come before the hole of the path. */
  function Before<P>(c: Path<P>): seq<(int, P)>
    decreases |c|
  {
    if c == [] then []
    else Before(c[1..]) + (if c[0].goLeft then [] else Items(c[0].sibling) + [(c[0].key, c[0].value)])
  }

  /** Entries of the tree that come after the hole of the path. */
  function After<P>(c: Path<P>): seq<(int, P)>
    decreases |c|
  {
    if c == [] then []
    else (if c[0].goLeft then [(c[0].key, c[0].value)] + Items(c[0].sibling) else []) + After(c[1..])
  }

  lemma {:induction false} PlugItems<P>(c: Path<P>, t: Tree<P>)
    ensures Items(Plug(c, t)) == Before(c) + Items(t) + After(c)
    decreases |c|
  {
    if c != [] {
      PlugItems(c[1..], Fill(c[0], t));
    }
  }

  lemma {:induction false} PlugAppend<P>(c1: Path<P>, c2: Path<P>, t: Tree<P>)
    ensures Plug(c1 + c2, t) == Plug(c2, Plug(c1, t))
    decreases |c1|
  {
    if c1 == [] {
      assert c1 + c2 == c2;
    } else {
      assert (c1 + c2)[1..] == c1[1..] + c2;
      PlugAppend(c1[1..], c2, Fill(c1[0], t));
    }
  }

  lemma BeforeAfterAppend<P>(c1: Path<P>, c2: Path<P>)
    ensures Before(c1 + c2) == Before(c2) + Before(c1)
    ensures After(c1 + c2) == After(c1) + After(c2)
  {
    BeforeAppend(c1, c2);
    AfterAppend(c1, c2);
  }

  lemma {:induction false} BeforeAppend<P>(c1: Path<P>, c2: Path<P>)
    ensures Before(c1 + c2) == Before(c2) + Before(c1)
    decreases |c1|
  {
    if c1 == [] {
      assert c1 + c2 == c2;
    } else {
      var c := c1 + c2;
      assert c[1..] == c1[1..] + c2 && c[0] == c1[0];
      BeforeAppend(c1[1..], c2);
      var own := if c1[0].goLeft then [] else Items(c1[0].sibling) + [(c1[0].key, c1[0].value)];
      calc {
        Before(c);
        Before(c1[1..] + c2) + own;
        (Before(c2) + Before(c1[1..])) + own;
        Before(c2) + (Before(c1[1..]) + own);
      }
    }
  }

  lemma {:induction false} AfterAppend<P>(c1: Path<P>, c2: Path<P>)
    ensures After(c1 + c2) == After(c1) + After(c2)
    decreases |c1|
  {
    if c1 == [] {
      assert c1 + c2 == c2;
    } else {
      var c := c1 + c2;
      assert c[1..] == c1[1..] + c2 && c[0] == c1[0];
      AfterAppend(c1[1..], c2);
      var own := if c1[0].goLeft then [(c1[0].key, c1[0].value)] + Items(c1[0].sibling) else [];
      calc {
        After(c);
        own + After(c1[1..] + c2);
        own + (After(c1[1..]) + After(c2));
        (own + After(c1[1..])) + After(c2);
      }
    }
  }

  // ---------------------------------------------------------------------
  // Side flags along a path

  /** Side flag of a subtree's root fits the slot it hangs in. */
  predicate FitsSlot<P>(c: Path<P>, t: Tree<P>) {
    c == [] || t.Nil? || t.isLeft == c[0].goLeft
  }

  lemma {:induction false} SidesOfPlug<P>(c: Path<P>, t: Tree<P>)
    requires SidesOk(Plug(c, t))
    ensures SidesOk(t) && FitsSlot(c, t)
    decreases |c|
  {
    if c != [] {
      SidesOfPlug(c[1..], Fill(c[0], t));
    }
  }

  /** Replacing a subtree by one with good flags whose root fits the slot keeps the flags good. */
  lemma {:induction false} SidesReplace<P>(c: Path<P>, t: Tree<P>, u: Tree<P>)
    requires SidesOk(Plug(c, t)) && SidesOk(u) && FitsSlot(c, u)
    ensures SidesOk(Plug(c, u))
    decreases |c|
  {
    if c != [] {
      SidesOfPlug(c[1..], Fill(c[0], t));
      SidesReplace(c[1..], Fill(c[0], t), Fill(c[0], u));
    }
  }

  // ---------------------------------------------------------------------
  // Cached counters along a path

  /** Each frame's other child is exact (the frames' own counters may be stale). */
  predicate SiblingsExact<P>(c: Path<P>) {
    forall i :: 0 <= i < |c| ==> Exact(c[i].sibling)
  }

  /** As SiblingsExact, and each frame's counter on the sibling's side is exact too. */
  predicate FramesExact<P>(c: Path<P>) {
    forall i :: 0 <= i < |c| ==>
      Exact(c[i].sibling) && (if c[i].goLeft then c[i].depthR else c[i].depthL) == Height(c[i].sibling)
  }

  lemma {:induction false} ExactOfPlug<P>(c: Path<P>, t: Tree<P>)
    requires Exact(Plug(c, t))
    ensures Exact(t) && FramesExact(c) && SiblingsExact(c)
    decreases |c|
  {
    if c != [] {
      ExactOfPlug(c[1..], Fill(c[0], t));
      assert forall i :: 1 <= i < |c| ==> c[i] == c[1..][i - 1];
    }
  }

  // ---------------------------------------------------------------------
  // Finding a node by key

  /**
   * The path to the node holding key k (or to the empty slot where it would
   * be), innermost frame first, together with the subtree found there.
   */
  function Descend<P>(t: Tree<P>, k: int): (r: (Path<P>, Tree<P>))
    ensures Plug(r.0, r.1) == t
    decreases t
  {
    if t.Nil? || t.key == k then ([], t)
    else if k < t.key then
      var (c, s) := Descend(t.left, k);
      PlugAppend(c, [FrameOf(t, true)], s);
      (c + [FrameOf(t, true)], s)
    else
      var (c, s) := Descend(t.right, k);
      PlugAppend(c, [FrameOf(t, false)], s);
      (c + [FrameOf(t, false)], s)
  }

  /** In an ordered tree Descend stops exactly at the node holding the key. */
  lemma {:induction false} DescendFinds<P>(t: Tree<P>, k: int)
    requires Ordered(t) && k in Contents(t)
    ensures Descend(t, k).1.Node? && Descend(t, k).1.key == k
    decreases t
  {
    SearchStep(t, k);
    if t.key != k {
      if k < t.key {
        DescendFinds(t.left, k);
      } else {
        DescendFinds(t.right, k);
      }
    }
  }
}
