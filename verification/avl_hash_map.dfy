/**
 * AVLHashMap: a fixed-length array of buckets. A bucket is empty, holds a
 * single key/value pair, or holds the root of an AVL tree of the keys that
 * hash to it. Keys are ints (their CompareTo and Equals agree); the hash is
 * the key's GetHashCode, given to the constructor.
 */
module HashMap {
  import opened AvlTree
  import opened AvlWalks

  /** Number of buckets of the parameterless constructor. */
  const DefaultSize := 1024

  /** Results of GetHashCode. int.MinValue is left out: Math.Abs throws on it. */
  type HashCode = h: int | -0x7FFF_FFFF <= h <= 0x7FFF_FFFF

  /** Math.Abs(hash) % size. Both operands are non-negative, so C#'s % agrees with Dafny's. */
  function BucketIndex(h: HashCode, size: int): (i: int)
    requires size > 0
    ensures 0 <= i < size
  {
    (if h < 0 then -h else h) % size
  }

  datatype Slot<V> = Empty | Pair(key: int, value: V) | Root(tree: Tree<V>)

  /** The entries a bucket holds, in key order for a tree. */
  function SlotItems<V>(s: Slot<V>): seq<(int, V)> {
    match s
    case Empty => []
    case Pair(k, v) => [(k, v)]
    case Root(t) => Items(t)
  }

  /** A bucket's entries all hash to it, and a tree bucket holds a well-formed, non-empty tree. */
  predicate SlotOk<V>(s: Slot<V>, i: int, hash: int -> HashCode, size: int)
    requires size > 0
  {
    (s.Root? ==> s.tree.Node? && WellFormed(s.tree)) &&
    forall k :: k in ToMap(SlotItems(s)) ==> BucketIndex(hash(k), size) == i
  }

  predicate SlotsOk<V>(ss: seq<Slot<V>>, hash: int -> HashCode, size: int)
    requires size > 0
  {
    forall i :: 0 <= i < |ss| ==> SlotOk(ss[i], i, hash, size)
  }

  /** Entries of all buckets, bucket by bucket in index order. */
  function AllItems<V>(ss: seq<Slot<V>>): seq<(int, V)>
    decreases |ss|
  {
    if ss == [] then [] else AllItems(ss[..|ss| - 1]) + SlotItems(ss[|ss| - 1])
  }

  lemma AllItemsSnoc<V>(ss: seq<Slot<V>>, i: int)
    requires 0 <= i < |ss|
    ensures AllItems(ss[..i + 1]) == AllItems(ss[..i]) + SlotItems(ss[i])
  {
    assert ss[..i + 1][..i] == ss[..i];
  }

  /** A key is stored exactly where its bucket says, with that bucket's value. */
  lemma {:induction false} AllItemsLookup<V>(ss: seq<Slot<V>>, hash: int -> HashCode, size: int, k: int)
    requires size > 0 && SlotsOk(ss, hash, size)
    ensures var b := BucketIndex(hash(k), size);
      (k in ToMap(AllItems(ss)) <==> b < |ss| && k in ToMap(SlotItems(ss[b]))) &&
      (k in ToMap(AllItems(ss)) ==> ToMap(AllItems(ss))[k] == ToMap(SlotItems(ss[b]))[k])
    decreases |ss|
  {
    if ss != [] {
      var pre, last := ss[..|ss| - 1], ss[|ss| - 1];
      assert SlotsOk(pre, hash, size) by {
        forall i | 0 <= i < |pre| ensures SlotOk(pre[i], i, hash, size) {
          assert pre[i] == ss[i];
        }
      }
      AllItemsLookup(pre, hash, size, k);
      ToMapAppend(AllItems(pre), SlotItems(last));
      assert SlotOk(last, |ss| - 1, hash, size);
    }
  }

  /** No key occurs twice among the entries of all buckets. */
  lemma {:induction false} AllItemsDistinct<V>(ss: seq<Slot<V>>, hash: int -> HashCode, size: int)
    requires size > 0 && SlotsOk(ss, hash, size)
    ensures Distinct(KeysOf(AllItems(ss)))
    decreases |ss|
  {
    if ss != [] {
      var pre, last := ss[..|ss| - 1], ss[|ss| - 1];
      assert SlotsOk(pre, hash, size) by {
        forall i | 0 <= i < |pre| ensures SlotOk(pre[i], i, hash, size) {
          assert pre[i] == ss[i];
        }
      }
      AllItemsDistinct(pre, hash, size);
      var a, b := KeysOf(AllItems(pre)), KeysOf(SlotItems(last));
      KeysOfAppend(AllItems(pre), SlotItems(last));
      assert SlotOk(last, |ss| - 1, hash, size);
      forall i, j | 0 <= i < |a| && 0 <= j < |b| ensures a[i] != b[j] {
        ToMapDomain(AllItems(pre), a[i]);
        AllItemsLookup(pre, hash, size, a[i]);
        ToMapDomain(SlotItems(last), b[j]);
      }
      assert Distinct(b) by {
        if last.Root? {
          assert Ordered(last.tree);
        }
      }
    }
  }

  /** Replacing one bucket changes the total number of entries by the difference. */
  lemma {:induction false} AllItemsCount<V>(ss: seq<Slot<V>>, i: int, x: Slot<V>)
    requires 0 <= i < |ss|
    ensures |AllItems(ss[i := x])| == |AllItems(ss)| - |SlotItems(ss[i])| + |SlotItems(x)|
    decreases |ss|
  {
    var ss' := ss[i := x];
    if i < |ss| - 1 {
      assert ss'[..|ss'| - 1] == ss[..|ss| - 1][i := x];
      AllItemsCount(ss[..|ss| - 1], i, x);
    } else {
      assert ss'[..|ss'| - 1] == ss[..|ss| - 1];
    }
  }

  /**
   * Replacing bucket i by one with the same key placement: a key of another
   * bucket keeps its entry, a key of bucket i is looked up in the new bucket.
   */
  lemma ReplaceSlotLookup<V>(ss: seq<Slot<V>>, i: int, x: Slot<V>, hash: int -> HashCode, size: int, k: int)
    requires size > 0 && SlotsOk(ss, hash, size) && 0 <= i < |ss| && SlotOk(x, i, hash, size)
    ensures SlotsOk(ss[i := x], hash, size)
    ensures BucketIndex(hash(k), size) != i ==>
      (k in ToMap(AllItems(ss[i := x])) <==> k in ToMap(AllItems(ss))) &&
      (k in ToMap(AllItems(ss)) ==> ToMap(AllItems(ss[i := x]))[k] == ToMap(AllItems(ss))[k])
    ensures BucketIndex(hash(k), size) == i ==>
      (k in ToMap(AllItems(ss[i := x])) <==> k in ToMap(SlotItems(x))) &&
      (k in ToMap(SlotItems(x)) ==> ToMap(AllItems(ss[i := x]))[k] == ToMap(SlotItems(x))[k]) &&
      (k in ToMap(AllItems(ss)) <==> k in ToMap(SlotItems(ss[i]))) &&
      (k in ToMap(SlotItems(ss[i])) ==> ToMap(AllItems(ss))[k] == ToMap(SlotItems(ss[i]))[k])
  {
    assert SlotsOk(ss[i := x], hash, size);
    AllItemsLookup(ss, hash, size, k);
    AllItemsLookup(ss[i := x], hash, size, k);
  }

  /** Bucket i changed as the dictionary m changed to m' on keys of bucket i; the whole map changes the same way. */
  lemma ReplaceSlot<V>(ss: seq<Slot<V>>, i: int, x: Slot<V>, hash: int -> HashCode, size: int, m': map<int, V>)
    requires size > 0 && SlotsOk(ss, hash, size) && 0 <= i < |ss| && SlotOk(x, i, hash, size)
    requires forall k :: k in m' ==> BucketIndex(hash(k), size) == i ==> k in ToMap(SlotItems(x))
    requires forall k :: BucketIndex(hash(k), size) != i ==>
      (k in m' <==> k in ToMap(AllItems(ss))) && (k in m' ==> m'[k] == ToMap(AllItems(ss))[k])
    requires forall k :: k in ToMap(SlotItems(x)) ==> k in m' && m'[k] == ToMap(SlotItems(x))[k]
    ensures SlotsOk(ss[i := x], hash, size)
    ensures ToMap(AllItems(ss[i := x])) == m'
  {
    var c' := ToMap(AllItems(ss[i := x]));
    forall k ensures (k in c' <==> k in m') && (k in c' ==> c'[k] == m'[k]) {
      ReplaceSlotLookup(ss, i, x, hash, size, k);
    }
    ReplaceSlotLookup(ss, i, x, hash, size, 0);
  }

  /** Whether every bucket's tree has exact depth counters (every repair walk ran to the end). */
  predicate SlotExact<V>(s: Slot<V>) {
    s.Root? ==> Exact(s.tree)
  }

  /** What Validate asserts about one bucket: checkNodes on a tree bucket. */
  predicate SlotChecks<V>(s: Slot<V>) {
    s.Root? ==> CheckNodes(s.tree)
  }

  /**
   * TryGetValue as written: it reports a hit when the value read Equals
   * default(TValue), and that Equals call throws when the value read is null.
   */
  function TryGetAsWritten<V(==)>(m: map<int, V>, dflt: V, key: int, isNull: V -> bool): (r: Outcome<(bool, V)>)
    ensures r.NullReferenceException? <==> isNull(if key in m then m[key] else dflt)
    ensures r.Returned? ==> r.result.1 == (if key in m then m[key] else dflt)
    ensures r.Returned? ==> (r.result.0 <==> r.result.1 == dflt)
  {
    var v := if key in m then m[key] else dflt;
    if isNull(v) then NullReferenceException else Returned((v == dflt, v))
  }

  /**
   * For a value type (nothing is null): a miss is reported as found, and a
   * stored non-default value as not found.
   */
  lemma TryGetValueInverted<V>(dflt: V, key: int, v: V, isNull: V -> bool)
    requires v != dflt && !isNull(dflt) && !isNull(v)
    ensures var none: map<int, V> := map[]; TryGetAsWritten(none, dflt, key, isNull) == Returned((true, dflt))
    ensures TryGetAsWritten(map[key := v], dflt, key, isNull) == Returned((false, v))
  {
  }

  /**
   * For a reference type (default(TValue) is null): a miss throws, and a
   * stored non-null value is reported as not found.
   */
  lemma TryGetValueThrowsOnMiss<V>(dflt: V, key: int, v: V, isNull: V -> bool)
    requires isNull(dflt) && !isNull(v)
    ensures var none: map<int, V> := map[]; TryGetAsWritten(none, dflt, key, isNull) == NullReferenceException
    ensures TryGetAsWritten(map[key := v], dflt, key, isNull) == Returned((false, v))
  {
  }

  /** For a reference type, no call ever reports a hit. */
  lemma TryGetValueNeverFinds<V>(m: map<int, V>, dflt: V, key: int, isNull: V -> bool)
    requires isNull(dflt)
    ensures !(TryGetAsWritten(m, dflt, key, isNull).Returned? && TryGetAsWritten(m, dflt, key, isNull).result.0)
  {
  }

  class AVLHashMap<V(==)> {
    const size: int
    /** GetHashCode of a key. */
    const hash: int -> HashCode
    /** default(TValue), returned by the indexer on a miss. */
    const Default: V
    /**
     * Whether a TValue is null, so that calling Equals on it throws:
     * constantly false for a value type; for a reference type, Default is null.
     */
    const IsNull: V -> bool
    /** The HashMap array; Clear replaces it by a fresh one. */
    var table: array<Slot<V>>
    var elementCount: int

    ghost predicate Valid()
      reads this, table
    {
      0 < size && table.Length == size && SlotsOk(table[..], hash, size) &&
      elementCount == |AllItems(table[..])|
    }

    /** Every tree bucket has exact depth counters. */
    ghost predicate Settled()
      reads this, table
    {
      forall i :: 0 <= i < table.Length ==> SlotExact(table[i])
    }

    /** The dictionary the map represents. */
    ghost function Contents(): map<int, V>
      reads this, table
    {
      ToMap(AllItems(table[..]))
    }

    function Home(key: int): (b: int)
      requires 0 < size
      reads this
      ensures 0 <= b < size
    {
      BucketIndex(hash(key), size)
    }

    constructor(size: int, hash: int -> HashCode, Default: V, IsNull: V -> bool)
      requires size > 0
      ensures Valid() && Settled() && Contents() == map[] && elementCount == 0
      ensures this.size == size && this.hash == hash && this.Default == Default && this.IsNull == IsNull
      ensures fresh(table)
    {
      this.size := size;
      this.hash := hash;
      this.Default := Default;
      this.IsNull := IsNull;
      table := new Slot<V>[size](_ => Empty);
      elementCount := 0;
      new;
      AllEmpty(table[..]);
    }

    /** The parameterless AVLHashMap(): 1024 buckets. */
    constructor Standard(hash: int -> HashCode, Default: V, IsNull: V -> bool)
      ensures Valid() && Settled() && Contents() == map[] && elementCount == 0
      ensures size == DefaultSize && this.hash == hash && this.Default == Default && this.IsNull == IsNull
      ensures fresh(table)
    {
      size := DefaultSize;
      this.hash := hash;
      this.Default := Default;
      this.IsNull := IsNull;
      table := new Slot<V>[DefaultSize](_ => Empty);
      elementCount := 0;
      new;
      AllEmpty(table[..]);
    }

    static lemma {:induction false} AllEmpty(ss: seq<Slot<V>>)
      requires forall i :: 0 <= i < |ss| ==> ss[i] == Empty
      ensures AllItems(ss) == []
      decreases |ss|
    {
      if ss != [] {
        AllEmpty(ss[..|ss| - 1]);
      }
    }

    /** The indexer's getter: the stored value, or default(TValue) for an absent key. */
    method Get(key: int) returns (v: V)
      requires Valid()
      ensures v == if key in Contents() then Contents()[key] else Default
    {
      var b := Home(key);
      AllItemsLookup(table[..], hash, size, key);
      match table[b]
      case Empty =>
        v := Default;
      case Pair(k, x) =>
        v := if k == key then x else Default;
      case Root(t) =>
        var _, node := Find(t, key);
        v := if node.Node? then node.value else Default;
    }

    method ContainsKey(key: int) returns (found: bool)
      requires Valid()
      ensures found <==> key in Contents()
    {
      var b := Home(key);
      AllItemsLookup(table[..], hash, size, key);
      match table[b]
      case Empty =>
        found := false;
      case Pair(k, _) =>
        found := k == key;
      case Root(t) =>
        var _, node := Find(t, key);
        found := node.Node?;
    }

    /**
     * Contains(pair): the key is present and its value Equals the given one.
     * Equals is called on the stored value, so a stored null throws.
     */
    method Contains(key: int, value: V) returns (r: Outcome<bool>)
      requires Valid()
      ensures r.NullReferenceException? <==> key in Contents() && IsNull(Contents()[key])
      ensures r.Returned? ==> (r.result <==> key in Contents() && Contents()[key] == value)
    {
      var b := Home(key);
      AllItemsLookup(table[..], hash, size, key);
      match table[b]
      case Empty =>
        r := Returned(false);
      case Pair(k, x) =>
        r := if k != key then Returned(false)
             else if IsNull(x) then NullReferenceException
             else Returned(x == value);
      case Root(t) =>
        var _, node := Find(t, key);
        r := if node.Nil? then Returned(false)
             else if IsNull(node.value) then NullReferenceException
             else Returned(node.value == value);
    }

    /** TryGetValue as the source has it: the flag is value.Equals(default(TValue)). */
    method TryGetValueAsWritten(key: int) returns (r: Outcome<(bool, V)>)
      requires Valid()
      ensures r == TryGetAsWritten(Contents(), Default, key, IsNull)
    {
      var value := Get(key);
      r := if IsNull(value) then NullReferenceException else Returned((value == Default, value));
    }

    /** TryGetValue as intended: the flag says whether the key is present. */
    method TryGetValue(key: int) returns (found: bool, value: V)
      requires Valid()
      ensures found <==> key in Contents()
      ensures value == if found then Contents()[key] else Default
    {
      value := Get(key);
      found := ContainsKey(key);
    }

    function Count(): (n: int)
      requires Valid()
      reads this, table
      ensures n == |Contents()|
    {
      AllItemsDistinct(table[..], hash, size);
      ToMapCard(AllItems(table[..]));
      elementCount
    }

    /** Add (and the indexer's setter): an upsert in the key's bucket. */
    method Add(key: int, value: V) returns (ghost settled: bool)
      requires Valid() && Settled()
      modifies this, table
      ensures Valid() && table == old(table)
      ensures Contents() == old(Contents())[key := value]
      ensures elementCount == old(elementCount) + (if key in old(Contents()) then 0 else 1)
      ensures settled ==> Settled()
    {
      var b := Home(key);
      ghost var ss := table[..];
      AllItemsLookup(ss, hash, size, key);
      assert SlotOk(ss[b], b, hash, size) && SlotExact(ss[b]);
      var x, added, done := UpsertInSlot(table[b], key, value);
      settled := done;
      UpsertSlot(ss, b, x, key, value, hash, size);
      AllItemsCount(ss, b, x);
      table[b] := x;
      assert table[..] == ss[b := x];
      if added {
        elementCount := elementCount + 1;
      }
    }

    /** Remove(key): a pair bucket with that key is emptied; a tree bucket goes through FindRemoveKey. */
    method Remove(key: int) returns (removed: bool, ghost settled: bool)
      requires Valid() && Settled()
      modifies this, table
      ensures Valid() && table == old(table)
      ensures removed <==> key in old(Contents())
      ensures Contents() == old(Contents()) - {key}
      ensures elementCount == old(elementCount) - (if removed then 1 else 0)
      ensures !removed ==> unchanged(table) && elementCount == old(elementCount)
      ensures settled ==> Settled()
    {
      removed, settled := RemoveMatching(key, _ => true);
    }

    /**
     * Remove(pair): as Remove(key), but only when the stored value Equals the
     * given one (a pair bucket compares both; a tree bucket goes through
     * FindRemoveItem). Equals is called on the stored value once the key
     * matches, before anything is changed, so a stored null throws.
     */
    method RemovePair(key: int, value: V) returns (r: Outcome<bool>, ghost settled: bool)
      requires Valid() && Settled()
      modifies this, table
      ensures Valid() && table == old(table)
      ensures r.NullReferenceException? <==> key in old(Contents()) && IsNull(old(Contents())[key])
      ensures r.Returned? ==> (r.result <==> key in old(Contents()) && old(Contents())[key] == value)
      ensures Contents() == if r == Returned(true) then old(Contents()) - {key} else old(Contents())
      ensures elementCount == old(elementCount) - (if r == Returned(true) then 1 else 0)
      ensures r != Returned(true) ==> unchanged(table) && elementCount == old(elementCount)
      ensures settled ==> Settled()
    {
      var present, stored := TryGetValue(key);
      if present && IsNull(stored) {
        return NullReferenceException, true;
      }
      var removed;
      removed, settled := RemoveMatching(key, x => x == value);
      r := Returned(removed);
    }

    /** The bucket logic shared by both Remove overloads; accept decides on the stored value. */
    method RemoveMatching(key: int, accept: V -> bool) returns (removed: bool, ghost settled: bool)
      requires Valid() && Settled()
      modifies this, table
      ensures Valid() && table == old(table)
      ensures removed <==> key in old(Contents()) && accept(old(Contents())[key])
      ensures Contents() == if removed then old(Contents()) - {key} else old(Contents())
      ensures elementCount == old(elementCount) - (if removed then 1 else 0)
      ensures !removed ==> unchanged(table) && elementCount == old(elementCount)
      ensures settled ==> Settled()
    {
      var b := Home(key);
      ghost var ss := table[..];
      AllItemsLookup(ss, hash, size, key);
      assert SlotOk(ss[b], b, hash, size) && SlotExact(ss[b]);
      var x;
      x, removed, settled := RemoveInSlot(table[b], key, accept);
      if removed {
        RemoveSlot(ss, b, x, key, hash, size);
        AllItemsCount(ss, b, x);
        table[b] := x;
        assert table[..] == ss[b := x];
        elementCount := elementCount - 1;
      }
    }

    /** Clear: a fresh array of empty buckets of the same size, and a count of 0. */
    method Clear()
      requires Valid()
      modifies this
      ensures Valid() && Settled() && Contents() == map[] && elementCount == 0 && fresh(table)
    {
      elementCount := 0;
      table := new Slot<V>[size](_ => Empty);
      AllEmpty(table[..]);
    }

    /** Keys: bucket by bucket in index order, a tree bucket in increasing key order. */
    method Keys() returns (r: seq<int>)
      requires Valid()
      ensures r == KeysOf(AllItems(table[..]))
      ensures |r| == elementCount
      ensures forall k :: k in r <==> k in Contents()
      ensures forall i, j :: 0 <= i < j < |r| ==> r[i] != r[j]
    {
      r := [];
      var i := 0;
      while i < table.Length
        invariant 0 <= i <= table.Length
        invariant r == KeysOf(AllItems(table[..i]))
      {
        match table[i] {
          case Empty =>
          case Pair(k, _) => r := r + [k];
          case Root(t) => r := r + GetSortedKeys(t);
        }
        AllItemsSnoc(table[..], i);
        assert table[..][..i + 1] == table[..i + 1] && table[..][..i] == table[..i];
        KeysOfAppend(AllItems(table[..i]), SlotItems(table[i]));
        i := i + 1;
      }
      assert table[..i] == table[..];
      forall k ensures k in r <==> k in Contents() {
        ToMapDomain(AllItems(table[..]), k);
      }
      AllItemsDistinct(table[..], hash, size);
    }

    /** Values: in the same order as Keys. */
    method Values() returns (r: seq<V>)
      requires Valid()
      ensures r == ValuesOf(AllItems(table[..]))
      ensures |r| == elementCount
    {
      r := [];
      var i := 0;
      while i < table.Length
        invariant 0 <= i <= table.Length
        invariant r == ValuesOf(AllItems(table[..i]))
      {
        match table[i] {
          case Empty =>
          case Pair(_, v) => r := r + [v];
          case Root(t) => r := r + GetSorted(t);
        }
        AllItemsSnoc(table[..], i);
        assert table[..][..i + 1] == table[..i + 1] && table[..][..i] == table[..i];
        ValuesOfAppend(AllItems(table[..i]), SlotItems(table[i]));
        i := i + 1;
      }
      assert table[..i] == table[..];
    }

    /**
     * Validate: checkNodes on every tree bucket, and the number of stored
     * pairs (getCount of each tree, one per pair bucket) equals elementCount.
     * ok says whether all of its assertions hold.
     */
    method Validate() returns (ok: bool)
      ensures ok <==> (forall i :: 0 <= i < table.Length ==> SlotChecks(table[i])) &&
                      elementCount == |AllItems(table[..])|
      ensures Valid() && Settled() ==> ok
    {
      var count, checks := 0, true;
      var i := 0;
      while i < table.Length
        invariant 0 <= i <= table.Length
        invariant count == |AllItems(table[..i])|
        invariant checks <==> forall j :: 0 <= j < i ==> SlotChecks(table[j])
      {
        match table[i] {
          case Empty =>
          case Pair(_, _) => count := count + 1;
          case Root(t) =>
            checks := checks && CheckNodes(t);
            count := count + GetCount(t);
        }
        AllItemsSnoc(table[..], i);
        assert table[..][..i + 1] == table[..i + 1] && table[..][..i] == table[..i];
        i := i + 1;
      }
      assert table[..i] == table[..];
      ok := checks && count == elementCount;
      if Valid() && Settled() {
        forall j | 0 <= j < table.Length ensures SlotChecks(table[j]) {
          assert SlotOk(table[..][j], j, hash, size);
          if table[j].Root? {
            CheckOrderIsOrdered(table[j].tree);
          }
        }
      }
    }
  }

  /**
   * What Add does to the key's bucket: an empty bucket takes the pair; a pair
   * bucket with the same key is overwritten; a pair bucket with another key
   * becomes a two-node tree with the old pair at the root and the new pair as
   * its left child if smaller, else its right child; a tree bucket goes
   * through AddItem.
   */
  method UpsertInSlot<V>(s: Slot<V>, key: int, value: V) returns (x: Slot<V>, added: bool, ghost settled: bool)
    requires s.Root? ==> s.tree.Node? && WellFormed(s.tree) && Exact(s.tree)
    ensures x.Root? ==> x.tree.Node? && WellFormed(x.tree)
    ensures added <==> key !in ToMap(SlotItems(s))
    ensures ToMap(SlotItems(x)) == ToMap(SlotItems(s))[key := value]
    ensures |SlotItems(x)| == |SlotItems(s)| + (if added then 1 else 0)
    ensures settled ==> SlotExact(x)
    ensures s.Empty? ==> x == Pair(key, value)
    ensures s.Pair? && s.key == key ==> x == Pair(key, value)
    ensures s.Pair? && s.key != key ==>
      x.Root? && x.tree.key == s.key && x.tree.value == s.value &&
      if key < s.key then
        x.tree.left == Node(Nil, key, value, true, 0, 0, Nil) && x.tree.right == Nil &&
        x.tree.depthL == 1 && x.tree.depthR == 0
      else
        x.tree.right == Node(Nil, key, value, false, 0, 0, Nil) && x.tree.left == Nil &&
        x.tree.depthR == 1 && x.tree.depthL == 0
    ensures s.Root? ==> x.Root?
  {
    settled := true;
    match s {
      case Empty =>
        x, added := Pair(key, value), true;
        ToMapSingle((key, value));
      case Pair(k, v) =>
        ToMapSingle((k, v));
        if k == key {
          x, added := Pair(key, value), false;
          ToMapSingle((key, value));
        } else if key < k {
          x, added := Root(Node(Node(Nil, key, value, true, 0, 0, Nil), k, v, true, 1, 0, Nil)), true;
          TwoNodeTree(key, value, k, v, x.tree);
        } else {
          x, added := Root(Node(Nil, k, v, true, 0, 1, Node(Nil, key, value, false, 0, 0, Nil))), true;
          TwoNodeTree(key, value, k, v, x.tree);
        }
      case Root(t) =>
        var t', grew, done := AddItem(t, key, value, _ => value, WalkFuel);
        x, added := Root(t'), grew;
        settled := done;
        assert AvlTree.Contents(t') == AvlTree.Contents(t)[key := value];
    }
  }

  /**
   * Removal from one bucket: a pair bucket with the key and an accepted
   * value is emptied; a tree bucket goes through FindRemoveKey or
   * FindRemoveItem, and is emptied when its last node goes.
   */
  method RemoveInSlot<V>(s: Slot<V>, key: int, accept: V -> bool) returns (x: Slot<V>, removed: bool, ghost settled: bool)
    requires s.Root? ==> s.tree.Node? && WellFormed(s.tree) && Exact(s.tree)
    ensures removed <==> key in ToMap(SlotItems(s)) && accept(ToMap(SlotItems(s))[key])
    ensures removed ==> x.Root? ==> x.tree.Node? && WellFormed(x.tree)
    ensures removed ==> ToMap(SlotItems(x)) == ToMap(SlotItems(s)) - {key}
    ensures removed ==> |SlotItems(x)| == |SlotItems(s)| - 1
    ensures removed && settled ==> SlotExact(x)
    ensures !removed ==> settled && x == s
    ensures removed && s.Pair? ==> x.Empty?
    ensures removed && s.Root? ==> (x.Root? <==> |SlotItems(s)| >= 2)
  {
    removed, settled := false, true;
    x := s;
    match s {
      case Empty =>
      case Pair(k, v) =>
        ToMapSingle((k, v));
        removed := k == key && accept(v);
        if removed {
          x := Empty;
        }
      case Root(t) =>
        var t', gone, done := FindRemove(t, key, accept, WalkFuel);
        removed, settled := gone.Some?, done;
        if removed {
          x := if t'.Node? then Root(t') else Empty;
        }
    }
  }

  /** An upsert of key in its own bucket is an upsert of the whole dictionary. */
  lemma UpsertSlot<V>(ss: seq<Slot<V>>, b: int, x: Slot<V>, key: int, value: V, hash: int -> HashCode, size: int)
    requires size > 0 && SlotsOk(ss, hash, size) && b == BucketIndex(hash(key), size) && b < |ss|
    requires x.Root? ==> x.tree.Node? && WellFormed(x.tree)
    requires ToMap(SlotItems(x)) == ToMap(SlotItems(ss[b]))[key := value]
    ensures SlotsOk(ss[b := x], hash, size)
    ensures ToMap(AllItems(ss[b := x])) == ToMap(AllItems(ss))[key := value]
  {
    var c := ToMap(AllItems(ss));
    var m' := c[key := value];
    assert SlotOk(ss[b], b, hash, size);
    assert SlotOk(x, b, hash, size);
    forall k | k in m' && BucketIndex(hash(k), size) == b ensures k in ToMap(SlotItems(x)) {
      AllItemsLookup(ss, hash, size, k);
    }
    forall k | k in ToMap(SlotItems(x)) ensures k in m' && m'[k] == ToMap(SlotItems(x))[k] {
      AllItemsLookup(ss, hash, size, k);
    }
    ReplaceSlot(ss, b, x, hash, size, m');
  }

  /** Removing key from its own bucket removes it from the whole dictionary. */
  lemma RemoveSlot<V>(ss: seq<Slot<V>>, b: int, x: Slot<V>, key: int, hash: int -> HashCode, size: int)
    requires size > 0 && SlotsOk(ss, hash, size) && b == BucketIndex(hash(key), size) && b < |ss|
    requires x.Root? ==> x.tree.Node? && WellFormed(x.tree)
    requires ToMap(SlotItems(x)) == ToMap(SlotItems(ss[b])) - {key}
    ensures SlotsOk(ss[b := x], hash, size)
    ensures ToMap(AllItems(ss[b := x])) == ToMap(AllItems(ss)) - {key}
  {
    var c := ToMap(AllItems(ss));
    var m' := c - {key};
    assert SlotOk(ss[b], b, hash, size);
    assert SlotOk(x, b, hash, size);
    forall k | k in m' && BucketIndex(hash(k), size) == b ensures k in ToMap(SlotItems(x)) {
      AllItemsLookup(ss, hash, size, k);
    }
    forall k | k in ToMap(SlotItems(x)) ensures k in m' && m'[k] == ToMap(SlotItems(x))[k] {
      AllItemsLookup(ss, hash, size, k);
    }
    ReplaceSlot(ss, b, x, hash, size, m');
  }

  /** The tree made from a pair bucket and a second key holds exactly the two entries. */
  lemma TwoNodeTree<V>(key: int, value: V, k: int, v: V, t: Tree<V>)
    requires key != k
    requires t == (if key < k then Node(Node(Nil, key, value, true, 0, 0, Nil), k, v, true, 1, 0, Nil)
                   else Node(Nil, k, v, true, 0, 1, Node(Nil, key, value, false, 0, 0, Nil)))
    ensures t.Node? && WellFormed(t) && Exact(t) && |Items(t)| == 2
    ensures Contents(t) == map[k := v][key := value]
  {
    var a, c := (key, value), (k, v);
    if key < k {
      assert Items(t) == [a] + [c];
    } else {
      assert Items(t) == [c] + [a];
    }
    ToMapAppend([a], [c]);
    ToMapAppend([c], [a]);
    ToMapSingle(a);
    ToMapSingle(c);
  }
}
