/**
 * Value model of the AVLNode objects shared by AVLHashMap and QueuedAVLTree.
 *
 * A node carries its key, a payload (the stored value, or for the queued tree
 * the value together with its queue element), the isLeft flag and the two
 * cached depth counters _depthL/_depthR. Parent ("head") links are not stored:
 * they are recovered from a path (see AvlPath), so the checkHeads consistency
 * holds by construction.
 */
module AvlTree {

  datatype Option<T> = None | Some(value: T)

  /** What a call that can end in a NullReferenceException produced. */
  datatype Outcome<T> = Returned(result: T) | NullReferenceException

  datatype Tree<P> =
    | Nil
    | Node(left: Tree<P>, key: int, value: P, isLeft: bool, depthL: int, depthR: int, right: Tree<P>)

  function Max(a: int, b: int): int { if a > b then a else b }

  /** Number of nodes on the longest downward path (a leaf has height 1). */
  function Height<P>(t: Tree<P>): nat {
    match t
    case Nil => 0
    case Node(l, _, _, _, _, _, r) => 1 + Max(Height(l), Height(r))
  }

  /** The depth a parent derives from a child's cached counters (updateDepth). */
  function DepthOf<P>(t: Tree<P>): int {
    if t.Nil? then 0 else Max(t.depthL, t.depthR) + 1
  }

  /** The balance property of a node: right counter minus left counter. */
  function Balance<P>(t: Tree<P>): int
    requires t.Node?
  {
    t.depthR - t.depthL
  }

  /** checkBalance: every cached counter is the height of that side. */
  predicate Exact<P>(t: Tree<P>) {
    match t
    case Nil => true
    case Node(l, _, _, _, dl, dr, r) => dl == Height(l) && dr == Height(r) && Exact(l) && Exact(r)
  }

  /** checkSide: left children are flagged isLeft, right children are not. */
  predicate SidesOk<P>(t: Tree<P>) {
    match t
    case Nil => true
    case Node(l, _, _, _, _, _, r) =>
      (l.Node? ==> l.isLeft) && (r.Node? ==> !r.isLeft) && SidesOk(l) && SidesOk(r)
  }

  /** In-order sequence of (key, payload) entries. */
  function Items<P>(t: Tree<P>): seq<(int, P)> {
    match t
    case Nil => []
    case Node(l, k, v, _, _, _, r) => Items(l) + [(k, v)] + Items(r)
  }

  function KeysOf<P>(s: seq<(int, P)>): seq<int> {
    seq(|s|, i requires 0 <= i < |s| => s[i].0)
  }

  function ValuesOf<P>(s: seq<(int, P)>): seq<P> {
    seq(|s|, i requires 0 <= i < |s| => s[i].1)
  }

  /** Dictionary view of an entry sequence (a later entry overrides an earlier one). */
  function ToMap<P>(s: seq<(int, P)>): map<int, P>
    decreases |s|
  {
    if s == [] then map[] else ToMap(s[..|s| - 1])[s[|s| - 1].0 := s[|s| - 1].1]
  }

  /** The dictionary a tree represents. */
  function Contents<P>(t: Tree<P>): map<int, P> {
    ToMap(Items(t))
  }

  predicate Increasing(s: seq<int>) {
    forall i, j :: 0 <= i < j < |s| ==> s[i] < s[j]
  }

  /** The search-tree order: in-order keys strictly increase. */
  predicate Ordered<P>(t: Tree<P>) {
    Increasing(KeysOf(Items(t)))
  }

  /** Structural well-formedness every operation keeps. */
  predicate WellFormed<P>(t: Tree<P>) {
    Ordered(t) && SidesOk(t)
  }

  /** getSortedKeys: keys of the left subtree, own key, keys of the right subtree. */
  function GetSortedKeys<P>(t: Tree<P>): (r: seq<int>)
    ensures r == KeysOf(Items(t))
  {
    match t
    case Nil => []
    case Node(l, k, _, _, _, _, r) =>
      KeysOfAppend3(Items(l), (k, t.value), Items(r));
      GetSortedKeys(l) + [k] + GetSortedKeys(r)
  }

  /** getSorted: payloads in key order. */
  function GetSorted<P>(t: Tree<P>): (r: seq<P>)
    ensures r == ValuesOf(Items(t))
  {
    match t
    case Nil => []
    case Node(l, k, v, _, _, _, r) =>
      ValuesOfAppend3(Items(l), (k, v), Items(r));
      GetSorted(l) + [v] + GetSorted(r)
  }

  /** getCount: number of nodes. */
  function GetCount<P>(t: Tree<P>): (n: nat)
    ensures n == |Items(t)|
  {
    match t
    case Nil => 0
    case Node(l, _, _, _, _, _, r) => 1 + GetCount(l) + GetCount(r)
  }

  // ---------------------------------------------------------------------
  // Entry sequences

  lemma KeysOfAppend<P>(a: seq<(int, P)>, b: seq<(int, P)>)
    ensures KeysOf(a + b) == KeysOf(a) + KeysOf(b)
  {
  }

  lemma KeysOfAppend3<P>(a: seq<(int, P)>, x: (int, P), b: seq<(int, P)>)
    ensures KeysOf(a + [x] + b) == KeysOf(a) + [x.0] + KeysOf(b)
  {
    KeysOfAppend(a + [x], b);
    KeysOfAppend(a, [x]);
  }

  lemma ValuesOfAppend<P>(a: seq<(int, P)>, b: seq<(int, P)>)
    ensures ValuesOf(a + b) == ValuesOf(a) + ValuesOf(b)
  {
  }

  lemma ValuesOfAppend3<P>(a: seq<(int, P)>, x: (int, P), b: seq<(int, P)>)
    ensures ValuesOf(a + [x] + b) == ValuesOf(a) + [x.1] + ValuesOf(b)
  {
    assert ValuesOf(a + [x] + b) == ValuesOf(a) + [x.1] + ValuesOf(b);
  }

  lemma {:induction false} ToMapAppend<P>(a: seq<(int, P)>, b: seq<(int, P)>)
    ensures ToMap(a + b) == ToMap(a) + ToMap(b)
    decreases |b|
  {
    if b == [] {
      assert a + b == a;
    } else {
      var b' := b[..|b| - 1];
      var x := b[|b| - 1];
      assert a + b == (a + b') + [x];
      assert (a + b)[..|a + b| - 1] == a + b';
      ToMapAppend(a, b');
      assert ToMap(b) == ToMap(b')[x.0 := x.1];
    }
  }

  /** The dictionary's keys are exactly the keys of the sequence. */
  lemma {:induction false} ToMapDomain<P>(s: seq<(int, P)>, k: int)
    ensures k in ToMap(s) <==> k in KeysOf(s)
    decreases |s|
  {
    if s != [] {
      var s' := s[..|s| - 1];
      var x := s[|s| - 1];
      assert s == s' + [x];
      ToMapDomain(s', k);
      KeysOfAppend(s', [x]);
      assert KeysOf(s) == KeysOf(s') + [x.0];
    }
  }

  /** No value occurs twice. */
  predicate Distinct(s: seq<int>) {
    forall i, j :: 0 <= i < j < |s| ==> s[i] != s[j]
  }

  /** A sequence without repetitions has as many distinct members as positions. */
  lemma {:induction false} DistinctCard(s: seq<int>)
    requires Distinct(s)
    ensures |set x | x in s| == |s|
  {
    if s != [] {
      assert Distinct(s[1..]) by {
        forall i, j | 0 <= i < j < |s| - 1 ensures s[1..][i] != s[1..][j] {
          assert s[1..][i] == s[i + 1] && s[1..][j] == s[j + 1];
        }
      }
      DistinctCard(s[1..]);
      assert (set x | x in s) == (set x | x in s[1..]) + {s[0]};
    }
  }

  /** With no key repeated, the dictionary has one key per entry. */
  lemma {:induction false} ToMapCard<P>(s: seq<(int, P)>)
    requires Distinct(KeysOf(s))
    ensures |ToMap(s)| == |s|
    decreases |s|
  {
    if s != [] {
      var s' := s[..|s| - 1];
      var x := s[|s| - 1];
      assert KeysOf(s') == KeysOf(s)[..|s| - 1];
      ToMapCard(s');
      ToMapDomain(s', x.0);
      assert x.0 == KeysOf(s)[|s| - 1];
    }
  }

  /** With strictly increasing keys, each entry is what the dictionary holds for its key. */
  lemma {:induction false} ToMapAt<P>(s: seq<(int, P)>, i: int)
    requires Increasing(KeysOf(s)) && 0 <= i < |s|
    ensures s[i].0 in ToMap(s) && ToMap(s)[s[i].0] == s[i].1
    decreases |s|
  {
    var n := |s| - 1;
    if i < n {
      var s' := s[..n];
      assert KeysOf(s') == KeysOf(s)[..n];
      assert s'[i] == s[i];
      ToMapAt(s', i);
      assert KeysOf(s)[i] < KeysOf(s)[n];
    }
  }

  lemma ToMapSingle<P>(x: (int, P))
    ensures ToMap([x]) == map[x.0 := x.1]
  {
    assert [x][..0] == [];
  }

  lemma ToMapAppend3<P>(a: seq<(int, P)>, x: (int, P), b: seq<(int, P)>)
    ensures ToMap(a + [x] + b) == ToMap(a) + map[x.0 := x.1] + ToMap(b)
  {
    ToMapAppend(a + [x], b);
    ToMapAppend(a, [x]);
    ToMapSingle(x);
  }

  lemma ContentsNode<P>(t: Tree<P>)
    requires t.Node?
    ensures Contents(t) == Contents(t.left) + map[t.key := t.value] + Contents(t.right)
  {
    ToMapAppend3(Items(t.left), (t.key, t.value), Items(t.right));
  }

  /** A key is in the dictionary exactly when it is one of the tree's keys. */
  lemma ContentsDomain<P>(t: Tree<P>, k: int)
    ensures k in Contents(t) <==> k in KeysOf(Items(t))
  {
    ToMapDomain(Items(t), k);
  }

  /** The keys of a tree's dictionary are exactly its in-order keys. */
  lemma ContentsKeys<P>(t: Tree<P>)
    ensures forall k :: k in Contents(t) <==> k in KeysOf(Items(t))
  {
    forall k {
      ToMapDomain(Items(t), k);
    }
  }

  /** In an ordered tree the i-th in-order entry is what the dictionary holds for its key. */
  lemma ContentsAt<P>(t: Tree<P>)
    requires Ordered(t)
    ensures forall i :: 0 <= i < |Items(t)| ==>
      Items(t)[i].0 in Contents(t) && Contents(t)[Items(t)[i].0] == Items(t)[i].1
  {
    forall i | 0 <= i < |Items(t)| {
      ToMapAt(Items(t), i);
    }
  }

  // ---------------------------------------------------------------------
  // Strictly increasing key sequences

  lemma IncreasingSplit(a: seq<int>, k: int, b: seq<int>)
    requires Increasing(a + [k] + b)
    ensures Increasing(a) && Increasing(b)
    ensures forall x :: x in a ==> x < k
    ensures forall y :: y in b ==> k < y
  {
    var s := a + [k] + b;
    forall i, j | 0 <= i < j < |b| ensures b[i] < b[j] {
      assert b[i] == s[|a| + 1 + i] && b[j] == s[|a| + 1 + j];
    }
    forall x | x in a ensures x < k {
      var i :| 0 <= i < |a| && a[i] == x;
      assert s[i] == x && s[|a|] == k;
    }
    forall y | y in b ensures k < y {
      var j :| 0 <= j < |b| && b[j] == y;
      assert s[|a| + 1 + j] == y && s[|a|] == k;
    }
    assert forall i, j :: 0 <= i < j < |a| ==> a[i] == s[i] && a[j] == s[j];
  }

  lemma IncreasingJoin(a: seq<int>, k: int, b: seq<int>)
    requires Increasing(a) && Increasing(b)
    requires forall x :: x in a ==> x < k
    requires forall y :: y in b ==> k < y
    ensures Increasing(a + [k] + b)
  {
    var s := a + [k] + b;
    forall i, j | 0 <= i < j < |s| ensures s[i] < s[j] {
      if j < |a| {
      } else if j == |a| {
        assert s[i] in a;
      } else if i < |a| {
        assert s[i] in a && s[j] in b;
      } else if i == |a| {
        assert s[j] in b;
      } else {
        assert s[i] == b[i - |a| - 1] && s[j] == b[j - |a| - 1];
      }
    }
  }

  /** Inserting a key between everything smaller and everything larger keeps the order. */
  lemma IncreasingInsert(a: seq<int>, k: int, b: seq<int>)
    requires Increasing(a + b)
    requires forall x :: x in a ==> x < k
    requires forall y :: y in b ==> k < y
    ensures Increasing(a + [k] + b)
  {
    var s := a + b;
    assert forall i, j :: 0 <= i < j < |a| ==> a[i] == s[i] && a[j] == s[j];
    assert forall i, j :: 0 <= i < j < |b| ==> b[i] == s[|a| + i] && b[j] == s[|a| + j];
    IncreasingJoin(a, k, b);
  }

  /** Removing one key keeps the order. */
  lemma IncreasingRemove(a: seq<int>, k: int, b: seq<int>)
    requires Increasing(a + [k] + b)
    ensures Increasing(a + b)
  {
    IncreasingSplit(a, k, b);
    var s := a + b;
    forall i, j | 0 <= i < j < |s| ensures s[i] < s[j] {
      if j < |a| {
      } else if i < |a| {
        assert s[i] in a && s[j] in b;
      } else {
        assert s[i] == b[i - |a|] && s[j] == b[j - |a|];
      }
    }
  }

  // ---------------------------------------------------------------------
  // Dictionary effect of inserting, replacing and removing one entry

  lemma KeysBelowNotInMap<P>(s: seq<(int, P)>, k: int)
    requires (forall x :: x in KeysOf(s) ==> x < k) || (forall y :: y in KeysOf(s) ==> k < y)
    ensures k !in ToMap(s)
  {
    ToMapDomain(s, k);
  }

  /** An entry slotted between smaller and larger keys adds one key to the dictionary. */
  lemma InsertEntry<P>(a: seq<(int, P)>, x: (int, P), b: seq<(int, P)>)
    requires Increasing(KeysOf(a + b))
    requires forall y :: y in KeysOf(a) ==> y < x.0
    requires forall y :: y in KeysOf(b) ==> x.0 < y
    ensures Increasing(KeysOf(a + [x] + b))
    ensures x.0 !in ToMap(a + b)
    ensures ToMap(a + [x] + b) == ToMap(a + b)[x.0 := x.1]
  {
    KeysOfAppend(a, b);
    KeysOfAppend3(a, x, b);
    IncreasingInsert(KeysOf(a), x.0, KeysOf(b));
    ToMapAppend(a, b);
    ToMapAppend3(a, x, b);
    KeysBelowNotInMap(a, x.0);
    KeysBelowNotInMap(b, x.0);
  }

  /** Giving an entry a new payload changes only that key's value. */
  lemma ReplaceEntry<P>(a: seq<(int, P)>, k: int, v: P, w: P, b: seq<(int, P)>)
    requires Increasing(KeysOf(a + [(k, v)] + b))
    ensures Increasing(KeysOf(a + [(k, w)] + b))
    ensures k in ToMap(a + [(k, v)] + b)
    ensures ToMap(a + [(k, w)] + b) == ToMap(a + [(k, v)] + b)[k := w]
  {
    KeysOfAppend3(a, (k, v), b);
    KeysOfAppend3(a, (k, w), b);
    IncreasingSplit(KeysOf(a), k, KeysOf(b));
    ToMapAppend3(a, (k, v), b);
    ToMapAppend3(a, (k, w), b);
    KeysBelowNotInMap(b, k);
  }

  /** Dropping an entry removes exactly its key from the dictionary. */
  lemma RemoveEntry<P>(a: seq<(int, P)>, x: (int, P), b: seq<(int, P)>)
    requires Increasing(KeysOf(a + [x] + b))
    ensures Increasing(KeysOf(a + b))
    ensures x.0 in ToMap(a + [x] + b)
    ensures ToMap(a + b) == ToMap(a + [x] + b) - {x.0}
  {
    KeysOfAppend(a, b);
    KeysOfAppend3(a, x, b);
    IncreasingSplit(KeysOf(a), x.0, KeysOf(b));
    IncreasingRemove(KeysOf(a), x.0, KeysOf(b));
    ToMapAppend(a, b);
    ToMapAppend3(a, x, b);
    KeysBelowNotInMap(a, x.0);
    KeysBelowNotInMap(b, x.0);
  }

  // ---------------------------------------------------------------------
  // Trees

  /** checkOrder compares neighbours only; for a sequence that is the same as full order. */
  lemma {:induction false} CheckOrderSuffices(s: seq<int>)
    requires forall i :: 0 <= i < |s| - 1 ==> s[i] < s[i + 1]
    ensures Increasing(s)
    decreases |s|
  {
    if |s| > 1 {
      var s' := s[1..];
      forall i | 0 <= i < |s'| - 1 ensures s'[i] < s'[i + 1] {
        assert s'[i] == s[i + 1] && s'[i + 1] == s[i + 2];
      }
      CheckOrderSuffices(s');
      forall i, j | 0 <= i < j < |s| ensures s[i] < s[j] {
        if i > 0 {
          assert s[i] == s'[i - 1] && s[j] == s'[j - 1];
        } else if j > 1 {
          assert s[1] == s'[0] && s[j] == s'[j - 1];
        }
      }
    }
  }

  /** checkOrder: neighbouring keys of getSortedKeys increase. */
  predicate CheckOrder<P>(t: Tree<P>) {
    forall i :: 0 <= i < |GetSortedKeys(t)| - 1 ==> GetSortedKeys(t)[i] < GetSortedKeys(t)[i + 1]
  }

  /** checkNodes on a root: checkSide, checkBalance and checkOrder all pass. */
  predicate CheckNodes<P>(t: Tree<P>) {
    SidesOk(t) && Exact(t) && CheckOrder(t)
  }

  /** The neighbour comparison of checkOrder establishes the full search-tree order, and conversely. */
  lemma CheckOrderIsOrdered<P>(t: Tree<P>)
    ensures CheckOrder(t) <==> Ordered(t)
  {
    var ks := KeysOf(Items(t));
    assert GetSortedKeys(t) == ks;
    if CheckOrder(t) {
      assert forall i :: 0 <= i < |ks| - 1 ==> ks[i] < ks[i + 1];
      CheckOrderSuffices(ks);
    }
  }

  lemma OrderedNode<P>(t: Tree<P>)
    requires t.Node?
    ensures Ordered(t) <==>
      Ordered(t.left) && Ordered(t.right) &&
      (forall x :: x in KeysOf(Items(t.left)) ==> x < t.key) &&
      (forall y :: y in KeysOf(Items(t.right)) ==> t.key < y)
  {
    KeysOfAppend3(Items(t.left), (t.key, t.value), Items(t.right));
    if Ordered(t) {
      IncreasingSplit(KeysOf(Items(t.left)), t.key, KeysOf(Items(t.right)));
    }
    if Ordered(t.left) && Ordered(t.right) &&
      (forall x :: x in KeysOf(Items(t.left)) ==> x < t.key) &&
      (forall y :: y in KeysOf(Items(t.right)) ==> t.key < y)
    {
      IncreasingJoin(KeysOf(Items(t.left)), t.key, KeysOf(Items(t.right)));
    }
  }

  /**
   * One step of every search loop in the source: in an ordered tree a key
   * smaller than the node's key can only be in the left subtree, a larger one
   * only in the right subtree, and an equal one is the node itself.
   */
  lemma SearchStep<P>(t: Tree<P>, k: int)
    requires t.Node? && Ordered(t)
    ensures Ordered(t.left) && Ordered(t.right)
    ensures k < t.key ==> (k in Contents(t) <==> k in Contents(t.left))
    ensures k < t.key && k in Contents(t.left) ==> Contents(t)[k] == Contents(t.left)[k]
    ensures t.key < k ==> (k in Contents(t) <==> k in Contents(t.right))
    ensures t.key < k && k in Contents(t.right) ==> Contents(t)[k] == Contents(t.right)[k]
    ensures k == t.key ==> k in Contents(t) && Contents(t)[k] == t.value
  {
    OrderedNode(t);
    ContentsNode(t);
    ContentsDomain(t.left, k);
    ContentsDomain(t.right, k);
  }

  /** Every non-empty tree has at least as many nodes as its height. */
  lemma {:induction false} HeightAtMostCount<P>(t: Tree<P>)
    ensures Height(t) <= |Items(t)|
  {
    if t.Node? {
      HeightAtMostCount(t.left);
      HeightAtMostCount(t.right);
    }
  }
}
