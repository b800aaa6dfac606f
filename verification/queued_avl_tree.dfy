/**
 * QueuedAVLTree: one AVL tree (the node model of AvlTree and AvlWalks) plus a
 * doubly linked Queue that remembers insertion order. Every node is linked to
 * its own queue element and every element to its node; adding a new key to a
 * full tree first evicts the node of the oldest element.
 *
 * The queue's elements live in an arena: an element is an index into the
 * next/previous/linkedKey sequences, cells 0 and 1 are the first and last
 * sentinels, and a node is identified by its key.
 */
module QueuedTree {
  import opened AvlTree
  import opened AvlWalks

  /** A missing link (null). */
  const Null := -1
  /** The sentinel in front of the newest element. */
  const First := 0
  /** The sentinel behind the oldest element. */
  const Last := 1
  /** Capacity chosen by the parameterless constructor. */
  const DefaultMaxCount := 4096

  /** What a node stores besides its key: its value and its linkedElement. */
  datatype Entry<V> = Entry(value: V, element: int)

  /** s[i], or Null when i is not an index of s. */
  function At(s: seq<int>, i: int): int {
    if 0 <= i < |s| then s[i] else Null
  }

  /** s with every occurrence of x dropped. */
  function Without(s: seq<int>, x: int): (r: seq<int>)
    ensures forall y :: y in r <==> y in s && y != x
  {
    if s == [] then [] else (if s[0] == x then [] else [s[0]]) + Without(s[1..], x)
  }

  lemma {:induction false} WithoutAbsent(s: seq<int>, x: int)
    requires x !in s
    ensures Without(s, x) == s
  {
    if s != [] {
      WithoutAbsent(s[1..], x);
    }
  }

  /** In a sequence without repetitions, dropping an element removes exactly its one position. */
  lemma {:induction false} WithoutAt(s: seq<int>, i: int)
    requires Distinct(s) && 0 <= i < |s|
    ensures Without(s, s[i]) == s[..i] + s[i + 1..]
  {
    var t := s[1..];
    assert forall j :: 0 <= j < |t| ==> t[j] == s[j + 1];
    if i == 0 {
      assert s[0] !in t;
      WithoutAbsent(t, s[0]);
    } else {
      assert Distinct(t);
      assert t[i - 1] == s[i] && s[0] != s[i];
      WithoutAt(t, i - 1);
      assert s[..i] == [s[0]] + t[..i - 1];
      assert s[i + 1..] == t[i..];
    }
  }

  /** The keys of the nodes linked to the elements es, in the order of es. */
  function LinkedKeys(linked: seq<int>, es: seq<int>): seq<int> {
    seq(|es|, i requires 0 <= i < |es| => At(linked, es[i]))
  }

  lemma LinkedKeysPush(linked: seq<int>, es: seq<int>, key: int)
    requires forall x :: x in es ==> 0 <= x < |linked|
    ensures LinkedKeys(linked + [key], [|linked|] + es) == [key] + LinkedKeys(linked, es)
  {
    var r := LinkedKeys(linked + [key], [|linked|] + es);
    forall i | 1 <= i < |r|
      ensures r[i] == LinkedKeys(linked, es)[i - 1]
    {
      assert ([|linked|] + es)[i] == es[i - 1];
      assert es[i - 1] in es;
    }
  }

  /** When only e is linked to e's key, dropping e from es drops that key from the keys. */
  lemma {:induction false} LinkedKeysWithout(linked: seq<int>, es: seq<int>, e: int)
    requires forall x :: x in es && At(linked, x) == At(linked, e) ==> x == e
    ensures LinkedKeys(linked, Without(es, e)) == Without(LinkedKeys(linked, es), At(linked, e))
  {
    if es != [] {
      LinkedKeysWithout(linked, es[1..], e);
      assert LinkedKeys(linked, es) == [At(linked, es[0])] + LinkedKeys(linked, es[1..]);
      var head := if es[0] == e then [] else [es[0]];
      assert LinkedKeys(linked, head + Without(es[1..], e)) ==
        LinkedKeys(linked, head) + LinkedKeys(linked, Without(es[1..], e));
    }
  }

  /** The stored values of a node dictionary. */
  function ValueMap<V>(c: map<int, Entry<V>>): map<int, V> {
    map k | k in c :: c[k].value
  }

  /**
   * Nodes and queue elements in bijection: each stored key's linkedElement is
   * in the queue and links back to that key, and each queued element links to
   * a stored key whose linkedElement it is.
   */
  ghost predicate Linked<V>(c: map<int, Entry<V>>, es: seq<int>, linked: seq<int>) {
    (forall k :: k in c ==> c[k].element in es && At(linked, c[k].element) == k) &&
    (forall e :: e in es ==> At(linked, e) in c && c[At(linked, e)].element == e)
  }

  /** A new node linked to a new element appended to the arena keeps the bijection. */
  lemma LinkedAdd<V>(c: map<int, Entry<V>>, es: seq<int>, linked: seq<int>, key: int, value: V)
    requires Linked(c, es, linked) && key !in c
    requires forall x :: x in es ==> 0 <= x < |linked|
    ensures Linked(c[key := Entry(value, |linked|)], [|linked|] + es, linked + [key])
  {
    var linked' := linked + [key];
    forall x | 0 <= x < |linked|
      ensures At(linked', x) == At(linked, x)
    {
    }
  }

  /** Dropping a node together with its linkedElement keeps the bijection. */
  lemma LinkedRemove<V>(c: map<int, Entry<V>>, es: seq<int>, linked: seq<int>, k: int)
    requires Linked(c, es, linked) && k in c
    ensures Linked(c - {k}, Without(es, c[k].element), linked)
  {
  }

  /** Overwriting a stored value, keeping its linkedElement, keeps the bijection. */
  lemma LinkedUpdate<V>(c: map<int, Entry<V>>, es: seq<int>, linked: seq<int>, key: int, value: V)
    requires Linked(c, es, linked) && key in c
    ensures Linked(c[key := Entry(value, c[key].element)], es, linked)
  {
  }

  lemma ValueMapUpdate<V>(c: map<int, Entry<V>>, key: int, x: Entry<V>)
    ensures ValueMap(c[key := x]) == ValueMap(c)[key := x.value]
  {
  }

  lemma ValueMapRemove<V>(c: map<int, Entry<V>>, key: int)
    ensures ValueMap(c - {key}) == ValueMap(c) - {key}
  {
  }

  /** Only the elements of the same key share its linked key. */
  lemma LinkedInjective<V>(c: map<int, Entry<V>>, es: seq<int>, linked: seq<int>, e: int)
    requires Linked(c, es, linked) && e in es
    ensures forall x :: x in es && At(linked, x) == At(linked, e) ==> x == e
  {
  }

  /** The sentinels bracket the elements, so the elements repeat neither each other nor a sentinel. */
  lemma InnerDistinct(es: seq<int>)
    requires Distinct([First] + es + [Last])
    ensures Distinct(es) && First !in es && Last !in es
  {
    var c := [First] + es + [Last];
    assert c[0] == First && c[|c| - 1] == Last;
    assert forall i :: 0 <= i < |es| ==> c[i + 1] == es[i];
  }

  lemma CellsDrop(es: seq<int>, i: int)
    requires 0 <= i < |es|
    ensures var c := [First] + es + [Last]; c[..i + 1] + c[i + 2..] == [First] + (es[..i] + es[i + 1..]) + [Last]
  {
  }

  /** c is a chain of distinct cells whose next and previous links lead along it. */
  predicate Chained(next: seq<int>, previous: seq<int>, c: seq<int>) {
    Distinct(c) && (forall i :: 0 <= i < |c| ==> 0 <= c[i] < |next| && c[i] < |previous|) &&
    forall i :: 0 <= i < |c| - 1 ==> next[c[i]] == c[i + 1] && previous[c[i + 1]] == c[i]
  }

  /** A new cell e linked in right after the chain's first cell (the QueueElement constructor). */
  lemma ChainPush(next: seq<int>, previous: seq<int>, c: seq<int>, e: int)
    requires Chained(next, previous, c) && |c| >= 2 && e == |next| == |previous|
    ensures Chained(next[c[0] := e] + [c[1]], previous[c[1] := e] + [c[0]], [c[0], e] + c[1..])
  {
    var next', previous', c' := next[c[0] := e] + [c[1]], previous[c[1] := e] + [c[0]], [c[0], e] + c[1..];
    assert forall i :: 2 <= i < |c'| ==> c'[i] == c[i - 1];
    forall i, j | 0 <= i < j < |c'|
      ensures c'[i] != c'[j]
    {
      if i >= 2 {
        assert c[i - 1] != c[j - 1];
      } else if j >= 2 {
        assert c[0] != c[j - 1];
      }
    }
    forall i | 0 <= i < |c'| - 1
      ensures next'[c'[i]] == c'[i + 1] && previous'[c'[i + 1]] == c'[i]
    {
      if i >= 2 {
        assert c[i - 1] != c[0] && c[i] != c[1];
      }
    }
  }

  /** Cell c[j] unlinked: its neighbours are linked to each other (QueueElement.Remove). */
  lemma ChainUnlink(next: seq<int>, previous: seq<int>, c: seq<int>, j: int)
    requires Chained(next, previous, c) && 0 < j < |c| - 1
    ensures Chained(next[c[j - 1] := c[j + 1]], previous[c[j + 1] := c[j - 1]], c[..j] + c[j + 1..])
  {
    var next', previous', c' := next[c[j - 1] := c[j + 1]], previous[c[j + 1] := c[j - 1]], c[..j] + c[j + 1..];
    assert forall a :: 0 <= a < |c'| ==> c'[a] == if a < j then c[a] else c[a + 1];
    forall a, b | 0 <= a < b < |c'|
      ensures c'[a] != c'[b]
    {
      assert c'[a] == c[if a < j then a else a + 1];
      assert c'[b] == c[if b < j then b else b + 1];
    }
    forall a | 0 <= a < |c'| - 1
      ensures next'[c'[a]] == c'[a + 1] && previous'[c'[a + 1]] == c'[a]
    {
      if a < j - 1 {
        assert c[a] != c[j - 1] && c[a + 1] != c[j + 1];
      } else if a >= j {
        assert c[a + 1] != c[j - 1] && c[a + 2] != c[j + 1];
      }
    }
  }

  /** The doubly linked list of QueueElements, with its two sentinels. */
  class Queue {
    /** next link of every cell created so far. */
    var next: seq<int>
    /** previous link of every cell created so far. */
    var previous: seq<int>
    /** The key of each cell's linked node (Null for a sentinel). */
    var linkedKey: seq<int>
    var size: int
    const maxSize: int
    /** The cells between the sentinels, from first.next (newest) to last.previous (oldest). */
    ghost var Elements: seq<int>

    /** The chain of cells from first to last. */
    ghost function Cells(): seq<int>
      reads this
    {
      [First] + Elements + [Last]
    }

    ghost predicate Valid()
      reads this
    {
      |next| == |previous| == |linkedKey| >= 2 && 0 < maxSize && size == |Elements| &&
      next[Last] == Null && previous[First] == Null && Chained(next, previous, Cells())
    }

    /** Keys of the linked nodes, newest first. */
    ghost function Order(): seq<int>
      reads this
    {
      LinkedKeys(linkedKey, Elements)
    }

    /** What Valid says about the chain, position by position. */
    lemma CellFacts()
      requires Valid()
      ensures |Cells()| == |Elements| + 2 && Cells()[0] == First && Cells()[|Elements| + 1] == Last
      ensures forall i :: 0 <= i < |Elements| ==> Cells()[i + 1] == Elements[i]
      ensures Distinct(Elements) && First !in Elements && Last !in Elements
      ensures forall x :: x in Elements ==> 0 <= x < |next|
    {
      var c := Cells();
      InnerDistinct(Elements);
      forall x | x in Elements
        ensures 0 <= x < |next|
      {
        var i :| 0 <= i < |Elements| && Elements[i] == x;
        assert c[i + 1] == x;
      }
    }

    /** Queue(maxSize) for a size the constructor accepts: the two sentinels linked to each other. */
    constructor(maxSize: int)
      requires maxSize > 0
      ensures Valid() && Elements == [] && this.maxSize == maxSize
    {
      this.maxSize := maxSize;
      next := [Last, Null];
      previous := [Null, First];
      linkedKey := [Null, Null];
      size := 0;
      Elements := [];
    }

    /**
     * Enqueue: a new element linked to the node of key, placed right after the
     * first sentinel. Its eviction guard (size > maxSize) cannot fire, since
     * size never exceeds maxSize.
     */
    method Enqueue(key: int) returns (e: int)
      requires Valid() && size <= maxSize
      modifies this
      ensures Valid() && Elements == [e] + old(Elements) && size == old(size) + 1
      ensures e == |old(linkedKey)| && linkedKey == old(linkedKey) + [key]
    {
      CellFacts();
      ghost var c := Cells();
      e := |next|;
      var h := next[First];
      ChainPush(next, previous, c, e);
      assert h == c[1] != Last ==> h in Elements;
      next := next[First := e] + [h];
      previous := previous[h := e] + [First];
      linkedKey := linkedKey + [key];
      size := size + 1;
      Elements := [e] + Elements;
      assert Cells() == [c[0], e] + c[1..];
    }

    /** Dequeue of an element: its neighbours are linked to each other and size drops by one. */
    method Dequeue(e: int)
      requires Valid() && e in Elements
      modifies this
      ensures Valid() && Elements == Without(old(Elements), e) && size == old(size) - 1
      ensures linkedKey == old(linkedKey)
    {
      CellFacts();
      ghost var c := Cells();
      ghost var es := Elements;
      ghost var i :| 0 <= i < |es| && es[i] == e;
      assert c[i + 1] == e;
      var p, n := previous[e], next[e];
      assert p == c[i] && n == c[i + 2];
      ChainUnlink(next, previous, c, i + 1);
      WithoutAt(es, i);
      CellsDrop(es, i);
      assert n != First && p != Last;
      next := next[p := n];
      previous := previous[n := p];
      size := size - 1;
      Elements := es[..i] + es[i + 1..];
    }

    /**
     * CheckRoom: when one more element would exceed maxSize, dequeue
     * last.previous, the oldest element, and report the key of its linked
     * node, which the tree then removes.
     */
    method CheckRoom() returns (evicted: Option<int>)
      requires Valid() && size <= maxSize
      modifies this
      ensures Valid() && size + 1 <= maxSize && linkedKey == old(linkedKey)
      ensures evicted.Some? <==> old(size) + 1 > maxSize
      ensures evicted.None? ==> unchanged(this)
      ensures evicted.Some? ==>
        var n := |old(Elements)|;
        n > 0 && evicted.value == old(Order())[n - 1] && size == old(size) - 1 &&
        Elements == Without(old(Elements), old(Elements)[n - 1]) == old(Elements)[..n - 1]
    {
      if size + 1 > maxSize {
        CellFacts();
        ghost var n := |Elements|;
        var e := previous[Last];
        assert e == Cells()[n] == Elements[n - 1];
        WithoutAt(Elements, n - 1);
        evicted := Some(At(linkedKey, e));
        Dequeue(e);
      } else {
        evicted := None;
      }
    }

    /** ValidateCount: walk from first.next until the cell without a next link, counting. */
    method ValidateCount() returns (count: int)
      requires Valid()
      ensures count == size
    {
      CellFacts();
      count := 0;
      var qe := next[First];
      while next[qe] != Null
        invariant 0 <= count <= |Elements| && qe == Cells()[count + 1]
        invariant count < |Elements| ==> next[qe] == Cells()[count + 2] != Null
        decreases |Elements| - count
      {
        qe := next[qe];
        count := count + 1;
      }
    }

    /** Clear: fresh sentinels linked to each other, size 0. */
    method Clear()
      requires Valid()
      modifies this
      ensures Valid() && Elements == [] && size == 0
    {
      next := [Last, Null];
      previous := [Null, First];
      linkedKey := [Null, Null];
      size := 0;
      Elements := [];
    }
  }

  /** GetAllData: the node's own pair, then the right subtree's, then the left subtree's. */
  function AllData<V>(t: Tree<Entry<V>>): seq<(int, V)> {
    match t
    case Nil => []
    case Node(l, k, x, _, _, _, r) => [(k, x.value)] + AllData(r) + AllData(l)
  }

  /** A tree's in-order entries without the linkedElements. */
  function Pairs<V>(s: seq<(int, Entry<V>)>): seq<(int, V)> {
    seq(|s|, i requires 0 <= i < |s| => (s[i].0, s[i].1.value))
  }

  lemma PairsAppend<V>(a: seq<(int, Entry<V>)>, b: seq<(int, Entry<V>)>)
    ensures Pairs(a + b) == Pairs(a) + Pairs(b)
  {
  }

  /** GetAllData yields the in-order entries, in another order. */
  lemma {:induction false} AllDataIsPermutation<V>(t: Tree<Entry<V>>)
    ensures multiset(AllData(t)) == multiset(Pairs(Items(t)))
  {
    if t.Node? {
      var l, r := Items(t.left), Items(t.right);
      var y := (t.key, t.value);
      var x := (t.key, t.value.value);
      AllDataIsPermutation(t.left);
      AllDataIsPermutation(t.right);
      PairsAppend(l + [y], r);
      PairsAppend(l, [y]);
      assert Pairs([y]) == [x];
      assert Pairs(Items(t)) == Pairs(l) + [x] + Pairs(r);
      calc {
        multiset(AllData(t));
        multiset([x] + AllData(t.right) + AllData(t.left));
        multiset([x]) + multiset(AllData(t.right)) + multiset(AllData(t.left));
        multiset(Pairs(l) + [x] + Pairs(r));
      }
    }
  }

  /** GetAllData lists the stored pairs: as many as there are entries, each stored, and every stored pair among them. */
  lemma AllDataListsContents<V>(t: Tree<Entry<V>>)
    requires Ordered(t)
    ensures |AllData(t)| == |Items(t)|
    ensures forall i :: 0 <= i < |AllData(t)| ==>
      AllData(t)[i].0 in ValueMap(Contents(t)) && ValueMap(Contents(t))[AllData(t)[i].0] == AllData(t)[i].1
    ensures forall k :: k in ValueMap(Contents(t)) ==> (k, ValueMap(Contents(t))[k]) in AllData(t)
  {
    AllDataIsPermutation(t);
    var r, ps := AllData(t), Pairs(Items(t));
    assert |r| == |multiset(r)| == |multiset(ps)| == |Items(t)|;
    AllDataSound(t);
    AllDataComplete(t);
  }

  lemma AllDataSound<V>(t: Tree<Entry<V>>)
    requires Ordered(t) && multiset(AllData(t)) == multiset(Pairs(Items(t)))
    ensures forall i :: 0 <= i < |AllData(t)| ==>
      AllData(t)[i].0 in ValueMap(Contents(t)) && ValueMap(Contents(t))[AllData(t)[i].0] == AllData(t)[i].1
  {
    ContentsAt(t);
    var r, ps := AllData(t), Pairs(Items(t));
    forall i | 0 <= i < |r|
      ensures r[i].0 in ValueMap(Contents(t)) && ValueMap(Contents(t))[r[i].0] == r[i].1
    {
      assert r[i] in multiset(ps);
      var j :| 0 <= j < |ps| && ps[j] == r[i];
    }
  }

  lemma AllDataComplete<V>(t: Tree<Entry<V>>)
    requires Ordered(t) && multiset(AllData(t)) == multiset(Pairs(Items(t)))
    ensures forall k :: k in ValueMap(Contents(t)) ==> (k, ValueMap(Contents(t))[k]) in AllData(t)
  {
    ContentsAt(t);
    ContentsKeys(t);
    var r, ps := AllData(t), Pairs(Items(t));
    forall k | k in ValueMap(Contents(t))
      ensures (k, ValueMap(Contents(t))[k]) in r
    {
      assert k in KeysOf(Items(t));
      var j :| 0 <= j < |Items(t)| && Items(t)[j].0 == k;
      assert ps[j] == (k, ValueMap(Contents(t))[k]);
      assert ps[j] in multiset(r);
    }
  }

  class QueuedAVLTree<V(==)> {
    /** The root node (head); Nil for an empty tree. */
    var root: Tree<Entry<V>>
    var count: int
    const maxCount: int
    const queue: Queue
    /** default(TValue), returned by the indexer on a miss. */
    const Default: V
    /**
     * Whether a TValue is null, so that calling Equals on it throws:
     * constantly false for a value type.
     */
    const IsNull: V -> bool

    ghost predicate Valid()
      reads this, queue
    {
      queue.Valid() && queue.maxSize == maxCount && WellFormed(root) &&
      count == |Items(root)| && count == queue.size && count <= maxCount &&
      Linked(AvlTree.Contents(root), queue.Elements, queue.linkedKey)
    }

    /** The depth counters are exact. */
    ghost predicate Settled()
      reads this
    {
      Exact(root)
    }

    /** The dictionary the tree represents. */
    ghost function Contents(): map<int, V>
      reads this
    {
      ValueMap(AvlTree.Contents(root))
    }

    /** The stored keys in insertion order, newest first. */
    ghost function Order(): seq<int>
      reads this, queue
    {
      queue.Order()
    }

    /** QueuedAVLTree(maxSize), for a maxSize the queue accepts. */
    constructor(maxSize: int, Default: V, IsNull: V -> bool)
      requires maxSize > 0
      ensures Valid() && Settled() && Contents() == map[] && Order() == [] && count == 0
      ensures maxCount == maxSize && this.Default == Default && this.IsNull == IsNull
      ensures fresh(queue)
    {
      maxCount := maxSize;
      this.Default := Default;
      this.IsNull := IsNull;
      root := Nil;
      count := 0;
      queue := new Queue(maxSize);
    }

    /** The parameterless QueuedAVLTree(): capacity 4096. */
    constructor Standard(Default: V, IsNull: V -> bool)
      ensures Valid() && Settled() && Contents() == map[] && Order() == [] && count == 0
      ensures maxCount == DefaultMaxCount && this.Default == Default && this.IsNull == IsNull
      ensures fresh(queue)
    {
      maxCount := DefaultMaxCount;
      this.Default := Default;
      this.IsNull := IsNull;
      root := Nil;
      count := 0;
      queue := new Queue(DefaultMaxCount);
    }

    /** QueuedAVLTree(maxSize) with the queue's throw on maxSize <= 0 as None. */
    static method TryCreate(maxSize: int, Default: V, IsNull: V -> bool) returns (r: Option<QueuedAVLTree<V>>)
      ensures r.None? <==> maxSize <= 0
      ensures r.Some? ==>
        fresh(r.value) && fresh(r.value.queue) && r.value.Valid() && r.value.Contents() == map[] &&
        r.value.maxCount == maxSize && r.value.Default == Default && r.value.IsNull == IsNull
    {
      if maxSize <= 0 {
        r := None;
      } else {
        var t := new QueuedAVLTree(maxSize, Default, IsNull);
        r := Some(t);
      }
    }

    /** The queue holds exactly the stored keys, each once. */
    lemma QueueMatchesTree()
      requires Valid()
      ensures forall k :: k in Order() <==> k in Contents()
      ensures Distinct(Order()) && |Order()| == count
    {
      var c, es, linked := AvlTree.Contents(root), queue.Elements, queue.linkedKey;
      InnerDistinct(es);
      forall k | k in c
        ensures k in Order()
      {
        var i :| 0 <= i < |es| && es[i] == c[k].element;
        assert Order()[i] == k;
      }
      forall i, j | 0 <= i < j < |es|
        ensures Order()[i] != Order()[j]
      {
        assert es[i] in es;
        LinkedInjective(c, es, linked, es[i]);
      }
    }

    /**
     * Add, and the indexer's set. An empty tree gets a root node. Otherwise, as
     * AddItem: for a key not yet stored, CheckRoom first makes room; then
     * PlaceItem stores the pair.
     */
    method Add(key: int, value: V) returns (ghost settled: bool)
      requires Valid() && Settled()
      modifies this, queue
      ensures Valid() && (settled ==> Settled())
      ensures key in old(Contents()) ==>
        settled && Contents() == old(Contents())[key := value] && Order() == old(Order()) && count == old(count)
      ensures key !in old(Contents()) && old(count) < maxCount ==>
        Contents() == old(Contents())[key := value] && Order() == [key] + old(Order()) && count == old(count) + 1
      ensures key !in old(Contents()) && old(count) == maxCount ==>
        var n := |old(Order())|;
        0 < n == old(count) &&
        var oldest := old(Order())[n - 1];
        ((Contents() == (old(Contents()) - {oldest})[key := value] && Order() == [key] + old(Order())[..n - 1] &&
          count == n) ||
         (!settled && Contents() == old(Contents()) - {oldest} && Order() == old(Order())[..n - 1] && count == n - 1))
    {
      var present := false;
      if root.Node? {
        present := ContainsKey(key);
        if !present {
          var done := CheckRoom();
          if !done {
            settled := false;
            return;
          }
        }
      }
      settled := PlaceItem(key, value, present);
    }

    /**
     * queue.CheckRoom(tree): when the queue is full, its oldest element is
     * dequeued and RemoveNode takes out the linked node (without dequeuing a
     * second time); the tree then has room for one more node.
     */
    method CheckRoom() returns (done: bool)
      requires Valid() && Settled()
      modifies this, queue
      ensures Valid() && (done ==> Settled()) && count < maxCount
      ensures old(count) < maxCount ==>
        done && root == old(root) && count == old(count) && unchanged(queue)
      ensures old(count) == maxCount ==>
        var n := |old(Order())|;
        0 < n == old(count) && Contents() == old(Contents()) - {old(Order())[n - 1]} &&
        Order() == old(Order())[..n - 1] && count == n - 1
    {
      done := true;
      ghost var c, es, linked := AvlTree.Contents(root), queue.Elements, queue.linkedKey;
      var evicted := queue.CheckRoom();
      if evicted.Some? {
        ghost var n := |es|;
        assert es[n - 1] in es;
        LinkedRemove(c, es, linked, evicted.value);
        assert LinkedKeys(linked, es[..n - 1]) == LinkedKeys(linked, es)[..n - 1];
        ValueMapRemove(c, evicted.value);
        root, done := RemoveKey(root, evicted.value, WalkFuel);
        count := count - 1;
      }
    }

    /**
     * What AddItem does once room is made (and Add on an empty tree): an empty
     * tree gets the new node as its root; otherwise the search loop overwrites
     * the value of the key's node, which keeps its queue element, or hangs a
     * new node, whose element is enqueued as the newest.
     */
    method PlaceItem(key: int, value: V, present: bool) returns (ghost settled: bool)
      requires Valid() && Settled() && (present <==> key in Contents())
      requires present || count < maxCount
      modifies this, queue
      ensures Valid() && (settled ==> Settled())
      ensures Contents() == old(Contents())[key := value]
      ensures present ==> settled && Order() == old(Order()) && count == old(count)
      ensures !present ==> Order() == [key] + old(Order()) && count == old(count) + 1
    {
      ghost var c, es, linked := AvlTree.Contents(root), queue.Elements, queue.linkedKey;
      if !present {
        queue.CellFacts();
        LinkedAdd(c, es, linked, key, value);
        LinkedKeysPush(linked, es, key);
        ValueMapUpdate(c, key, Entry(value, |linked|));
      }
      if root.Nil? {
        var e := queue.Enqueue(key);
        root := Node(Nil, key, Entry(value, e), true, 0, 0, Nil);
        ToMapSingle((key, Entry(value, e)));
        count := count + 1;
        settled := true;
      } else {
        var e := Null;
        if !present {
          e := queue.Enqueue(key);
        } else {
          LinkedUpdate(c, es, linked, key, value);
          ValueMapUpdate(c, key, Entry(value, c[key].element));
        }
        var t, added, done := AvlWalks.AddItem(root, key, Entry(value, e), (x: Entry<V>) => Entry(value, x.element), WalkFuel);
        root, settled := t, done;
        if added {
          count := count + 1;
        }
      }
    }

    /** Remove(key): false for an empty tree or a missing key; otherwise FindRemoveKey. */
    method Remove(key: int) returns (removed: bool, ghost settled: bool)
      requires Valid() && Settled()
      modifies this, queue
      ensures Valid() && (settled ==> Settled())
      ensures removed <==> key in old(Contents())
      ensures Contents() == old(Contents()) - {key}
      ensures Order() == Without(old(Order()), key)
      ensures count == old(count) - (if removed then 1 else 0)
    {
      ghost var order := Order();
      if key !in Contents() {
        NotQueued(key);
        WithoutAbsent(order, key);
      }
      removed, settled := RemoveMatching(key, _ => true);
    }

    /**
     * Remove(pair): as Remove(key), but only when the stored value Equals the
     * given one (FindRemoveItem). Equals is called on the stored value once
     * the key is found, before anything is changed, so a stored null throws.
     */
    method RemovePair(key: int, value: V) returns (r: Outcome<bool>, ghost settled: bool)
      requires Valid() && Settled()
      modifies this, queue
      ensures Valid() && (settled ==> Settled())
      ensures r.NullReferenceException? <==> key in old(Contents()) && IsNull(old(Contents())[key])
      ensures r.Returned? ==> (r.result <==> key in old(Contents()) && old(Contents())[key] == value)
      ensures Contents() == if r == Returned(true) then old(Contents()) - {key} else old(Contents())
      ensures Order() == if r == Returned(true) then Without(old(Order()), key) else old(Order())
      ensures count == old(count) - (if r == Returned(true) then 1 else 0)
    {
      var present, stored := TryGetValue(key);
      if present && IsNull(stored) {
        return NullReferenceException, true;
      }
      var removed;
      removed, settled := RemoveMatching(key, x => x == value);
      r := Returned(removed);
    }

    /**
     * The search-and-remove shared by both Remove overloads: RemoveNode first
     * dequeues the node's own linkedElement, then unlinks the node.
     */
    method RemoveMatching(key: int, accept: V -> bool) returns (removed: bool, ghost settled: bool)
      requires Valid() && Settled()
      modifies this, queue
      ensures Valid() && (settled ==> Settled())
      ensures removed <==> key in old(Contents()) && accept(old(Contents())[key])
      ensures Contents() == if removed then old(Contents()) - {key} else old(Contents())
      ensures Order() == if removed then Without(old(Order()), key) else old(Order())
      ensures count == old(count) - (if removed then 1 else 0)
    {
      if root.Nil? {
        return false, true;
      }
      var t, gone, done := FindRemove(root, key, (x: Entry<V>) => accept(x.value), WalkFuel);
      removed, settled := gone.Some?, done;
      if removed {
        ghost var c, es, linked := AvlTree.Contents(root), queue.Elements, queue.linkedKey;
        LinkedRemove(c, es, linked, key);
        LinkedInjective(c, es, linked, c[key].element);
        LinkedKeysWithout(linked, es, c[key].element);
        ValueMapRemove(c, key);
        queue.Dequeue(gone.value.element);
        root := t;
        count := count - 1;
      }
    }

    /** Clear: no root, count 0, and a cleared queue. */
    method Clear()
      requires Valid()
      modifies this, queue
      ensures Valid() && Settled() && Contents() == map[] && Order() == [] && count == 0
    {
      root := Nil;
      count := 0;
      queue.Clear();
    }

    /**
     * Validate: ok says whether all of its assertions hold: checkNodes on the
     * root, and the node count, the walked queue length, count and the queue's
     * size all equal (all zero for an empty tree).
     */
    method Validate() returns (ok: bool)
      requires queue.Valid()
      ensures ok <==> if root.Node? then CheckNodes(root) && |Items(root)| == queue.size == count
                      else count == queue.size == 0
      ensures Valid() && Settled() ==> ok
    {
      if root.Node? {
        var checks := CheckNodes(root);
        var size := GetCount(root);
        var walked := queue.ValidateCount();
        ok := checks && size == walked && size == count && size == queue.size;
      } else {
        var walked := queue.ValidateCount();
        ok := count == walked && count == 0 && queue.size == 0;
      }
      CheckOrderIsOrdered(root);
    }

    /** A key that is not stored has no queue element. */
    lemma NotQueued(key: int)
      requires Valid() && key !in Contents()
      ensures key !in Order()
    {
    }

    /** The indexer's get: the stored value, or default(TValue) for an empty tree or a missing key. */
    method Get(key: int) returns (v: V)
      requires Valid()
      ensures v == if key in Contents() then Contents()[key] else Default
    {
      if root.Nil? {
        return Default;
      }
      var _, node := Find(root, key);
      v := if node.Node? then node.value.value else Default;
    }

    method ContainsKey(key: int) returns (b: bool)
      requires Valid()
      ensures b <==> key in Contents()
    {
      if root.Nil? {
        return false;
      }
      var _, node := Find(root, key);
      b := node.Node?;
    }

    /**
     * Contains(pair): the key is stored and its value Equals the given one.
     * Here Equals is called on the given value, so a null given value throws
     * once the key is found.
     */
    method Contains(key: int, value: V) returns (r: Outcome<bool>)
      requires Valid()
      ensures r.NullReferenceException? <==> key in Contents() && IsNull(value)
      ensures r.Returned? ==> (r.result <==> key in Contents() && Contents()[key] == value)
    {
      if root.Nil? {
        return Returned(false);
      }
      var _, node := Find(root, key);
      r := if node.Nil? then Returned(false)
           else if IsNull(value) then NullReferenceException
           else Returned(node.value.value == value);
    }

    /** TryGetValue: the indexer's value, and whether ContainsKey holds. */
    method TryGetValue(key: int) returns (found: bool, value: V)
      requires Valid()
      ensures found <==> key in Contents()
      ensures value == if found then Contents()[key] else Default
    {
      value := Get(key);
      found := ContainsKey(key);
    }

    function Count(): (n: int)
      requires Valid()
      reads this, queue
      ensures n == |Contents()| && n <= maxCount
    {
      QueueMatchesTree();
      DistinctCard(Order());
      assert forall k :: k in Contents().Keys <==> k in Order();
      assert Contents().Keys == set k | k in Order();
      count
    }

    /** Keys: getSortedKeys of the root, in increasing order. */
    function Keys(): (r: seq<int>)
      requires Valid()
      reads this, queue
      ensures Increasing(r) && |r| == count
      ensures forall k :: k in r <==> k in Contents()
    {
      ContentsKeys(root);
      GetSortedKeys(root)
    }

    /** Values: getSorted of the root, the value of each key of Keys at the same position. */
    function Values(): (r: seq<V>)
      requires Valid()
      reads this, queue
      ensures |r| == count
      ensures forall i :: 0 <= i < |r| ==> Keys()[i] in Contents() && r[i] == Contents()[Keys()[i]]
    {
      ContentsAt(root);
      var s := GetSorted(root);
      seq(|s|, i requires 0 <= i < |s| => s[i].value)
    }

    /** GetEnumerator: GetAllData of the root, each stored pair once, in pre-order. */
    function Enumerate(): (r: seq<(int, V)>)
      requires Valid()
      reads this, queue
      ensures |r| == count
      ensures forall i :: 0 <= i < |r| ==> r[i].0 in Contents() && Contents()[r[i].0] == r[i].1
      ensures forall k :: k in Contents() ==> (k, Contents()[k]) in r
    {
      AllDataListsContents(root);
      AllData(root)
    }
  }
}
