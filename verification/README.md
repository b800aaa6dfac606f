# LamestWebserver collections and request-handler rules, in Dafny

LamestWebserver keeps its caches and URL lookup tables in two home-made
containers, and this project models and proves both:

- **AVLHashMap** is a fixed array of buckets. A key goes to bucket
  `Math.Abs(GetHashCode()) % size`. A bucket is empty, holds one key/value
  pair, or holds the root of an AVL tree. Every tree node carries the depth
  counters `_depthL`/`_depthR` and an `isLeft` side flag.
  - Insertion walks up from the new leaf and rebalances on the way
    (`balanceBubbleUp`).
  - Removal unhooks a leaf or a node with one child. A node with two
    children is replaced by its in-order successor.
  - After a removal, the depths are recomputed on the way up
    (`getMaxDepth`, `balanceSelfBubbleUp`).
- **QueuedAVLTree** is the same AVL code over a single root, plus a doubly
  linked `Queue` between two sentinels.
  - Each node owns one queue element, and the elements record insertion
    order.
  - When a new key arrives at a full tree, the oldest element's node is
    evicted first.

The project also models four smaller pieces:

- **PositionQueue** is a list with a public read cursor.
- From `RequestHandler.cs`:
  - the extension, binary-file and MIME-type rules of the file handler;
  - the loop that strips leading `'/'` and `' '` from a request URL;
  - the maintenance of the primary and secondary handler lists, and the
    dispatch over them;
  - the directory handler's walk from a URL back to the longest registered
    directory prefix.

How the model is laid out:

- **Tree nodes are values.** The AVL node machinery lives in the modules
  `AvlTree`, `AvlPath`, `AvlBalance` and `AvlWalks`, and both containers
  share it. A node is the datatype `Tree`. Parent links are a zipper:
  `Path` is the sequence of frames from a node up to the root. So every
  in-place relink of the source is a rebuild of the tree around the
  cursor.
- **The bucket array is a real `array`.** In the class `HashMap.AVLHashMap`,
  one slot is `Empty`, `Pair` or `Root`.
- **The queue is an arena.** In `QueuedTree.Queue`, elements are indices
  into the sequences `next`, `previous` and `linkedKey`. Cells 0 and 1 are
  the two sentinels. A node and its element point at each other through
  the node's key and the element's index.

The models' `Valid()` and `Settled()` predicates state these invariants.
The source's `Validate` methods check the first four:

- depth counters equal to the real depths (`Exact`);
- side flags that match the child's position (`SidesOk`);
- strictly increasing in-order keys (`Ordered`);
- the element count;
- a bijection between nodes and queue elements (`Linked`). The source
  never checks this one: QueuedAVLTree's `Validate` only compares counts.
  It is an invariant of the model, and every operation is proved to keep it.

Calling `Equals` on a null value throws NullReferenceException in .NET. The
containers model that with a predicate `IsNull` on values, given to the
constructor: constantly false for a value type, and true of
default(TValue) for a reference type. The operations that may throw
return an `Outcome`: `Returned(result)` or `NullReferenceException`.

Parent links need no check: they hold by construction. As in the source,
strict AVL balance (|balance| <= 1) is not an invariant.

Source paths below are relative to the repository root.

## Model

| member | source | states |
|---|---|---|
| AvlTree.GetSortedKeys | LamestWebserver/LamestWebserver/Collections/AVLHashMap.cs:871-884 | the keys of a subtree in in-order (left, node, right), i.e. the keys of `Items` in order |
| AvlTree.GetSorted | LamestWebserver/LamestWebserver/Collections/AVLHashMap.cs:856-869 | the values of a subtree in in-order, position by position matching GetSortedKeys |
| AvlTree.GetCount | LamestWebserver/LamestWebserver/Collections/AVLHashMap.cs:886-889 | the node count of a subtree is the number of entries it holds |
| AvlTree.CheckOrderIsOrdered | LamestWebserver/LamestWebserver/Collections/AVLHashMap.cs:580-588 | checkOrder (each key of getSortedKeys below the next) succeeds exactly when the in-order keys strictly increase |
| AvlTree.SearchStep | LamestWebserver/LamestWebserver/Collections/AVLHashMap.cs:118-145 | in an ordered tree a key below (above) the node's key is stored iff it is stored in the left (right) subtree, with the same value; the node's own key maps to its value |
| AvlBalance.UpdateDepth | LamestWebserver/LamestWebserver/Collections/AVLHashMap.cs:782-786 | keeps children, key, side and entries; when both children have exact counters, the node's counters become exact |
| AvlBalance.RotateLeft | LamestWebserver/LamestWebserver/Collections/AVLHashMap.cs:646-712 | the right child becomes the subtree root on the old root's side; the in-order entries are unchanged; exact counters below give exact counters; correct side flags stay correct |
| AvlBalance.RotateRight | LamestWebserver/LamestWebserver/Collections/AVLHashMap.cs:714-780 | mirror image of RotateLeft: the left child is promoted, entries and side flags kept, counters exact when the three subtrees are |
| AvlBalance.InnerChildExists | LamestWebserver/LamestWebserver/Collections/AVLHashMap.cs:451-474 | a right child that does not lean right (balance <= 0) and, with its parent at balance > 1, holds two or more entries, has a left child, so the inner `rotr(right.left)` of the double rotation never dereferences null |
| AvlBalance.RotateRightHeavy | LamestWebserver/LamestWebserver/Collections/AVLHashMap.cs:434-490 | the right-heavy case (single rotl, or rotr on the child then rotl): entries and side kept, counters exact afterwards |
| AvlBalance.RotateLeftHeavy | LamestWebserver/LamestWebserver/Collections/AVLHashMap.cs:491-562 | the left-heavy case (single rotr, or rotl on the child then rotr): entries and side kept, counters exact afterwards |
| AvlBalance.Rebalance | LamestWebserver/LamestWebserver/Collections/AVLHashMap.cs:412-564 | for an exact subtree (the case at every call site), including the recursive descent when the balance exceeds 2 in size: the result holds the same in-order entries, on the same side, with exact counters and correct side flags |
| AvlBalance.GetMaxDepth | LamestWebserver/LamestWebserver/Collections/AVLHashMap.cs:799-808 | recomputing the depths of a subtree never changes its entries, its side or its side flags |
| AvlBalance.GetMaxDepthRepairs | LamestWebserver/LamestWebserver/Collections/AVLHashMap.cs:799-808 | when every missing child already has counter 0, getMaxDepth leaves every counter exact and returns height - 1 |
| AvlBalance.GetMaxDepthKeepsNullSide | LamestWebserver/LamestWebserver/Collections/AVLHashMap.cs:799-808 | getMaxDepth does not write the counter of a missing left child (it only sets counters of existing children) |
| AvlBalance.GetMaxDepthOfExact | LamestWebserver/LamestWebserver/Collections/AVLHashMap.cs:799-808 | on a subtree whose counters are already exact, getMaxDepth changes nothing and returns height - 1 |
| AvlWalks.Find | LamestWebserver/LamestWebserver/Collections/AVLHashMap.cs:1116-1156 | the descent by CompareTo: the node reached (with its path) rebuilds the tree; it is a node iff the key is stored, and then holds that key and its value; every frame on the way brackets the key |
| AvlWalks.BalanceBubbleUp | LamestWebserver/LamestWebserver/Collections/AVLHashMap.cs:813-837 | walking from a node with exact counters to the root, updating the parent's counter and rebalancing, keeps the in-order entries and side flags; with enough steps the whole tree is exact |
| AvlWalks.BalanceSelfBubbleUp | LamestWebserver/LamestWebserver/Collections/AVLHashMap.cs:842-854 | recomputing with getMaxDepth and rebalancing from a node up to the root keeps entries and side flags; with enough steps the whole tree is exact |
| AvlWalks.RemoveNode | LamestWebserver/LamestWebserver/Collections/AVLHashMap.cs:979-1112 | removing a node leaves exactly the other entries, in order, with correct side flags; removing the only node empties the tree |
| AvlWalks.RemoveBelowParent | LamestWebserver/LamestWebserver/Collections/AVLHashMap.cs:981-1031 | a leaf or a one-child node below a parent is unhooked (its child takes its side), leaving the other entries in order |
| AvlWalks.RemoveWithSuccessor | LamestWebserver/LamestWebserver/Collections/AVLHashMap.cs:1032-1111 | a node with two children is replaced by its in-order successor node, leaving the other entries in order, with correct side flags |
| AvlWalks.Leftmost | LamestWebserver/LamestWebserver/Collections/AVLHashMap.cs:1036-1040 | the loop to the leftmost node of the right subtree: a node without left child reached by left steps only |
| AvlWalks.AddItem | LamestWebserver/LamestWebserver/Collections/AVLHashMap.cs:1114-1158 | upsert into a non-empty tree: `added` iff the key was absent; the dictionary becomes the old one with the key set; the count rises by one exactly when added; order and side flags kept |
| AvlWalks.HangLeaf | LamestWebserver/LamestWebserver/Collections/AVLHashMap.cs:1120-1143 | a new leaf hung where the search fell off the tree keeps the tree ordered, adds exactly that key with its value and one entry |
| AvlWalks.ReplacePayload | LamestWebserver/LamestWebserver/Collections/AVLHashMap.cs:1151-1155 | overwriting a found node's value changes only that key's value and keeps the tree's shape and counters |
| AvlWalks.FindRemove | LamestWebserver/LamestWebserver/Collections/AVLHashMap.cs:891-977 | FindRemoveKey/FindRemoveItem: removes iff the key is stored and its value is accepted; then exactly that key goes and the count drops by one; otherwise the tree is untouched |
| AvlWalks.RemoveKey | LamestWebserver/LamestWebserver/Collections/AVLHashMap.cs:979-1112 | removing a stored key leaves the dictionary minus that key and one entry fewer, well-formed |
| AvlWalks.RemovedContents | LamestWebserver/LamestWebserver/Collections/AVLHashMap.cs:979-1112 | the entries left after unhooking a node are the old dictionary minus the node's key, still strictly increasing |
| HashMap.BucketIndex | LamestWebserver/LamestWebserver/Collections/AVLHashMap.cs:102 | `Math.Abs(hash) % size` always lands inside the bucket array |
| HashMap.TryGetAsWritten | LamestWebserver/LamestWebserver/Collections/AVLHashMap.cs:231-235 | TryGetValue as written: throws exactly when the value read (stored value or default) is null; otherwise returns that value and "found" iff it equals default(TValue) |
| HashMap.TryGetValueInverted | LamestWebserver/LamestWebserver/Collections/AVLHashMap.cs:231-235 | for a value type: a missing key is reported as found (with the default), and a stored non-default value as not found |
| HashMap.TryGetValueThrowsOnMiss | LamestWebserver/LamestWebserver/Collections/AVLHashMap.cs:231-235 | for a reference type: a missing key throws NullReferenceException, and a stored non-null value is reported as not found |
| HashMap.TryGetValueNeverFinds | LamestWebserver/LamestWebserver/Collections/AVLHashMap.cs:231-235 | for a reference type, TryGetValue as written never reports a hit, whatever the map holds |
| HashMap.AVLHashMap.constructor | LamestWebserver/LamestWebserver/Collections/AVLHashMap.cs:18-22 | a map of `size` empty buckets: valid, empty, count 0 |
| HashMap.AVLHashMap.Standard | LamestWebserver/LamestWebserver/Collections/AVLHashMap.cs:18-22 | the constructor with its default argument: 1024 empty buckets, valid, empty, count 0 |
| HashMap.AVLHashMap.Get | LamestWebserver/LamestWebserver/Collections/AVLHashMap.cs:98-146 | the indexer's getter returns the stored value, or default(TValue) for an absent key |
| HashMap.AVLHashMap.ContainsKey | LamestWebserver/LamestWebserver/Collections/AVLHashMap.cs:154-200 | true exactly when the key is stored |
| HashMap.AVLHashMap.Contains | LamestWebserver/LamestWebserver/Collections/AVLHashMap.cs:295-341 | throws exactly when the key is stored with a null value (Equals is called on the stored value); otherwise true exactly when the key is stored with a value equal to the given one |
| HashMap.AVLHashMap.TryGetValueAsWritten | LamestWebserver/LamestWebserver/Collections/AVLHashMap.cs:231-235 | behaves as TryGetAsWritten on the map's dictionary: throws on a null value read, else the indexer's value and whether it equals default(TValue) |
| HashMap.AVLHashMap.TryGetValue | LamestWebserver/LamestWebserver/Collections/AVLHashMap.cs:231-235 | the intended TryGetValue: found iff the key is stored, and then its value, else default(TValue) |
| HashMap.AVLHashMap.Count | LamestWebserver/LamestWebserver/Collections/AVLHashMap.cs:64-70 | the element count equals the number of keys in the dictionary (no key is stored twice across the buckets) |
| HashMap.AVLHashMap.Add | LamestWebserver/LamestWebserver/Collections/AVLHashMap.cs:237-287 | indexer setter and Add are an upsert: the dictionary becomes the old one with key set to value; the count rises by one exactly when the key was absent; the map stays valid |
| HashMap.AVLHashMap.Remove | LamestWebserver/LamestWebserver/Collections/AVLHashMap.cs:348-370 | returns whether the key was stored; afterwards the key is gone, every other key keeps its value, the count drops by one exactly on success, and nothing changes on a miss |
| HashMap.AVLHashMap.RemovePair | LamestWebserver/LamestWebserver/Collections/AVLHashMap.cs:207-229 | throws, changing nothing, exactly when the key is stored with a null value; otherwise removes exactly when the key is stored with an equal value (the key goes, count drops by one), and a key hit with another value changes nothing |
| HashMap.AVLHashMap.Clear | LamestWebserver/LamestWebserver/Collections/AVLHashMap.cs:289-293 | a fresh array of the same size, all buckets empty, count 0 |
| HashMap.AVLHashMap.Keys | LamestWebserver/LamestWebserver/Collections/AVLHashMap.cs:24-42 | the keys bucket by bucket in index order (in key order inside a tree), exactly Count of them, each stored key listed once and nothing else |
| HashMap.AVLHashMap.Values | LamestWebserver/LamestWebserver/Collections/AVLHashMap.cs:44-62 | the values in the same bucket-by-bucket order, exactly Count of them |
| HashMap.AVLHashMap.Validate | LamestWebserver/LamestWebserver/Collections/AVLHashMap.cs:72-88 | succeeds iff every tree bucket passes checkNodes and elementCount equals the entries; a valid, settled map always passes |
| HashMap.UpsertInSlot | LamestWebserver/LamestWebserver/Collections/AVLHashMap.cs:241-286 | slot transitions on Add: empty to pair, a pair with the same key replaced by the new pair, a pair with another key to a two-node tree rooted at the old pair (new key as left child if smaller, else right, that side's counter 1), a tree stays a tree (AddItem); the slot's dictionary gains or updates exactly the key |
| HashMap.RemoveInSlot | LamestWebserver/LamestWebserver/Collections/AVLHashMap.cs:348-370 | removes from a bucket iff the key is there and its value accepted; a removed pair empties the slot; a tree stays a tree while two or more nodes remained (it never collapses back to a pair) and only removing its last node empties the slot; otherwise the bucket is returned unchanged |
| HashMap.TwoNodeTree | LamestWebserver/LamestWebserver/Collections/AVLHashMap.cs:254-270 | the old pair at the root, the new pair as the left child if smaller else the right, that side's depth 1: a well-formed exact tree of both entries |
| QueuedTree.Queue.constructor | LamestWebserver/LamestWebserver/Collections/QueuedAVLTree.cs:991-1003 | two linked sentinels, no elements |
| QueuedTree.Queue.Enqueue | LamestWebserver/LamestWebserver/Collections/QueuedAVLTree.cs:1005-1014 | a new element linked right behind the first sentinel: it becomes the newest, size rises by one |
| QueuedTree.Queue.Dequeue | LamestWebserver/LamestWebserver/Collections/QueuedAVLTree.cs:1016-1020 | unlinks exactly that element, keeping the others in their order, size drops by one |
| QueuedTree.Queue.CheckRoom | LamestWebserver/LamestWebserver/Collections/QueuedAVLTree.cs:1050-1054 | when one more element would exceed maxSize, the oldest element (last.previous) is removed and its key reported; otherwise nothing changes |
| QueuedTree.Queue.ValidateCount | LamestWebserver/LamestWebserver/Collections/QueuedAVLTree.cs:1022-1037 | the walk from first to last counts exactly `size` elements |
| QueuedTree.Queue.Clear | LamestWebserver/LamestWebserver/Collections/QueuedAVLTree.cs:1039-1048 | sentinels relinked, no elements, size 0 |
| QueuedTree.AllDataIsPermutation | LamestWebserver/LamestWebserver/Collections/QueuedAVLTree.cs:942-955 | GetAllData's pre-order (node, right, left) is a permutation of the in-order entries |
| QueuedTree.AllDataListsContents | LamestWebserver/LamestWebserver/Collections/QueuedAVLTree.cs:942-955 | GetAllData lists every stored key with its value, and nothing else |
| QueuedTree.QueuedAVLTree.constructor | LamestWebserver/LamestWebserver/Collections/QueuedAVLTree.cs:39-43 | QueuedAVLTree(maxSize): an empty tree, empty queue, count 0, capacity maxSize |
| QueuedTree.QueuedAVLTree.Standard | LamestWebserver/LamestWebserver/Collections/QueuedAVLTree.cs:29-33 | the parameterless constructor: empty, capacity 4096 |
| QueuedTree.QueuedAVLTree.TryCreate | LamestWebserver/LamestWebserver/Collections/QueuedAVLTree.cs:39-43 | construction fails exactly when maxSize <= 0 (the InvalidOperationException), else an empty valid tree |
| QueuedTree.QueuedAVLTree.QueueMatchesTree | LamestWebserver/LamestWebserver/Collections/QueuedAVLTree.cs:284-303 | the queued keys are exactly the stored keys, each once, and their number is count |
| QueuedTree.QueuedAVLTree.Add | LamestWebserver/LamestWebserver/Collections/QueuedAVLTree.cs:881-940 | a present key only gets its value overwritten (order and count kept); a new key is queued as newest, after evicting the oldest key when the tree is full, so count never exceeds maxCount |
| QueuedTree.QueuedAVLTree.CheckRoom | LamestWebserver/LamestWebserver/Collections/QueuedAVLTree.cs:881-893 | at capacity, the oldest key leaves the tree and the queue together; below capacity nothing changes |
| QueuedTree.QueuedAVLTree.PlaceItem | LamestWebserver/LamestWebserver/Collections/QueuedAVLTree.cs:894-940 | the key is set to the value; a new node is enqueued as newest, an existing one keeps its place |
| QueuedTree.QueuedAVLTree.Remove | LamestWebserver/LamestWebserver/Collections/QueuedAVLTree.cs:249-255 | returns whether the key was stored; the key leaves the tree and its element the queue; count drops by one exactly on success |
| QueuedTree.QueuedAVLTree.RemovePair | LamestWebserver/LamestWebserver/Collections/QueuedAVLTree.cs:240-246 | throws, changing nothing, exactly when the key is stored with a null value (FindRemoveItem calls Equals on the stored value); otherwise removes only when the key is stored with an equal value, and nothing changes otherwise |
| QueuedTree.QueuedAVLTree.Clear | LamestWebserver/LamestWebserver/Collections/QueuedAVLTree.cs:138-144 | empties tree, count and queue |
| QueuedTree.QueuedAVLTree.Validate | LamestWebserver/LamestWebserver/Collections/QueuedAVLTree.cs:284-303 | succeeds iff the nodes pass CheckNodes and node count, queue size and count agree; a valid, settled tree passes |
| QueuedTree.QueuedAVLTree.Get | LamestWebserver/LamestWebserver/Collections/QueuedAVLTree.cs:46-91 | the stored value, or default(TValue) for an empty tree or an absent key |
| QueuedTree.QueuedAVLTree.ContainsKey | LamestWebserver/LamestWebserver/Collections/QueuedAVLTree.cs:185-219 | true exactly when the key is stored |
| QueuedTree.QueuedAVLTree.Contains | LamestWebserver/LamestWebserver/Collections/QueuedAVLTree.cs:147-182 | throws exactly when the key is stored and the given value is null (Equals is called on the given value); otherwise true exactly when the key is stored with an equal value |
| QueuedTree.QueuedAVLTree.TryGetValue | LamestWebserver/LamestWebserver/Collections/QueuedAVLTree.cs:258-268 | found iff ContainsKey, with the indexer's value |
| QueuedTree.QueuedAVLTree.Count | LamestWebserver/LamestWebserver/Collections/QueuedAVLTree.cs:94 | the number of stored keys, never above maxCount |
| QueuedTree.QueuedAVLTree.Keys | LamestWebserver/LamestWebserver/Collections/QueuedAVLTree.cs:100-107 | the stored keys in strictly increasing order, count of them |
| QueuedTree.QueuedAVLTree.Values | LamestWebserver/LamestWebserver/Collections/QueuedAVLTree.cs:110-117 | the value of each key of Keys, at the same position |
| QueuedTree.QueuedAVLTree.Enumerate | LamestWebserver/LamestWebserver/Collections/QueuedAVLTree.cs:229-237 | the enumerator yields count pairs, each a stored key with its value, every stored key once |
| PositionQueues.PositionQueue.constructor | LamestWebserver/LamestWebserver/Collections/PositionQueue.cs:14-17 | a new list of the given objects, cursor at 0 |
| PositionQueues.PositionQueue.Wrap | LamestWebserver/LamestWebserver/Collections/PositionQueue.cs:19-22 | keeps the caller's list object itself (aliased), cursor at 0 |
| PositionQueues.PositionQueue.GetPassed | LamestWebserver/LamestWebserver/Collections/PositionQueue.cs:51 | the consumed prefix, Position elements long |
| PositionQueues.PositionQueue.GetConsumable | LamestWebserver/LamestWebserver/Collections/PositionQueue.cs:53 | the rest of the list: GetPassed() followed by it is the whole list |
| PositionQueues.PositionQueue.Peek | LamestWebserver/LamestWebserver/Collections/PositionQueue.cs:29-35 | the element under the cursor, or default once the cursor is at or past the end |
| PositionQueues.PositionQueue.AtEnd | LamestWebserver/LamestWebserver/Collections/PositionQueue.cs:62 | true once at most one element is left unconsumed (so already before the last one is popped) |
| PositionQueues.PositionQueue.Push | LamestWebserver/LamestWebserver/Collections/PositionQueue.cs:24-27 | appends to the list, cursor and consumed part unchanged, cursor bound kept |
| PositionQueues.PositionQueue.Pop | LamestWebserver/LamestWebserver/Collections/PositionQueue.cs:37-43 | returns what Peek showed; the cursor advances exactly when an element was left, moving it from the consumable to the passed part |
| PositionQueues.PositionQueue.Clear | LamestWebserver/LamestWebserver/Collections/PositionQueue.cs:45-49 | the (shared) list emptied, cursor 0 |
| PositionQueues.PositionQueue.ResetPosition | LamestWebserver/LamestWebserver/Collections/PositionQueue.cs:57-60 | cursor 0, list untouched, so all of it is consumable again |
| FileTypes.ExtensionOf | LamestWebserver/LamestWebserver/RequestHandlers/RequestHandler.cs:412-427 | "" for names shorter than 2 or without a '.' at positions 0..len-2; else the lowercased text after the last such '.' |
| FileTypes.GetExtention | LamestWebserver/LamestWebserver/RequestHandlers/RequestHandler.cs:412-427 | the backward scan loop computes ExtensionOf |
| FileTypes.ExtensionRoundTrip | LamestWebserver/LamestWebserver/RequestHandlers/RequestHandler.cs:412-427 | base + "." + ext (ext non-empty, dot-free) yields ext lowercased |
| FileTypes.FileIsBinary | LamestWebserver/LamestWebserver/RequestHandlers/RequestHandler.cs:383-405 | binary iff the name is shorter than 2 or the extension is not one of the eleven text extensions |
| FileTypes.BmpTypeHasNoSubtype | LamestWebserver/LamestWebserver/RequestHandlers/RequestHandler.cs:487-488 | as written, "bmp" maps to the header text "image", without a subtype |
| FileTypes.GetMimeType | LamestWebserver/LamestWebserver/RequestHandlers/RequestHandler.cs:434-523 | every result names a subtype (with "bmp" mapped to image/bmp) |
| FileTypeFacts.OctetStreamExactlyForUnlisted | LamestWebserver/LamestWebserver/RequestHandlers/RequestHandler.cs:434-523 | the answer is application/octet-stream exactly for extensions not in the table |
| FileTypeFacts.UnlistedAreOctetStream | LamestWebserver/LamestWebserver/RequestHandlers/RequestHandler.cs:520-521 | an unlisted extension falls through to application/octet-stream |
| FileTypeFacts.MediaTypesHaveSubtype | LamestWebserver/LamestWebserver/RequestHandlers/RequestHandler.cs:434-523 | every header text has the form top/subtype |
| FileTypeFacts.TextFilesHaveTextTypes | LamestWebserver/LamestWebserver/RequestHandlers/RequestHandler.cs:383-523 | for names of length >= 2, a file is served as text exactly when its MIME type is text/* or application/json |
| RequestUrls.Stripped | LamestWebserver/LamestWebserver/RequestHandlers/RequestHandler.cs:108-111 | a suffix of the URL after dropping only leading '/' and ' ', which is shorter than 2 or starts with neither; never empty for a non-empty URL |
| RequestUrls.StripRequestUrl | LamestWebserver/LamestWebserver/RequestHandlers/RequestHandler.cs:108-111 | the strip loop computes Stripped |
| RequestUrls.StrippedIdempotent | LamestWebserver/LamestWebserver/RequestHandlers/RequestHandler.cs:108-111 | stripping twice is stripping once |
| RequestUrls.ParentPrefix | LamestWebserver/LamestWebserver/RequestHandlers/RequestHandler.cs:1533-1545 | a strictly shorter prefix of a non-empty string, ending at a '/' or empty, with no '/' between it and the last character |
| RequestUrls.ParentDirectory | LamestWebserver/LamestWebserver/RequestHandlers/RequestHandler.cs:1533-1545 | the corrected backward scan computes ParentPrefix |
| RequestUrls.TrimSlashes | LamestWebserver/LamestWebserver/RequestHandlers/RequestHandler.cs:1557 | the suffix left after dropping leading '/' only, starting with something other than '/' |
| RequestUrls.ScanAsWritten | LamestWebserver/LamestWebserver/RequestHandlers/RequestHandler.cs:1533-1545 | the scan as written returns its input unchanged when it already ends in '/' |
| RequestUrls.StallsOnSlash | LamestWebserver/LamestWebserver/RequestHandlers/RequestHandler.cs:1531-1555 | from a string ending in '/', any number of loop rounds as written leave it unchanged |
| RequestUrls.DirectoryWalkAsWrittenHangs | LamestWebserver/LamestWebserver/RequestHandlers/RequestHandler.cs:1519-1555 | with neither "a/b/" nor "a/" registered, the walk from "a/b" stays at "a/" forever |
| RequestUrls.Walk | LamestWebserver/LamestWebserver/RequestHandlers/RequestHandler.cs:1531-1555 | the walk ends at the longest registered directory prefix ending in '/', or "" |
| RequestUrls.StripSlash | LamestWebserver/LamestWebserver/RequestHandlers/RequestHandler.cs:1516-1517 | drops exactly one leading '/' |
| RequestUrls.StripSlashAsWritten | LamestWebserver/LamestWebserver/RequestHandlers/RequestHandler.cs:1516-1517 | as written, a leading '/' makes the URL empty |
| RequestUrls.StripSlashAsWrittenLosesUrl | LamestWebserver/LamestWebserver/RequestHandlers/RequestHandler.cs:1516-1517 | on "/a" the code as written gives "" where "a" is meant |
| RequestUrls.StripSlashAgreesAfterCleanUp | LamestWebserver/LamestWebserver/RequestHandlers/RequestHandler.cs:1516-1517 | on a URL that passed GetResponse's strip loop, the written and the corrected slash removal agree |
| RequestUrls.GetResponseFunction | LamestWebserver/LamestWebserver/RequestHandlers/RequestHandler.cs:1511-1560 | a registered directory of the whole URL answers with sub-URL ""; otherwise the longest registered prefix answers (or none) and the sub-URL is the rest of the URL without leading '/' |
| HandlerLists.RemoveFirst | LamestWebserver/LamestWebserver/RequestHandlers/RequestHandler.cs:172-176 | List.Remove: one copy of the handler fewer, the others in place before it and shifted down after it; unchanged when absent |
| HandlerLists.InsertAt | LamestWebserver/LamestWebserver/RequestHandlers/RequestHandler.cs:162-166 | List.Insert: the handler at index, one more element, the others kept |
| HandlerLists.RemoveAllOfType | LamestWebserver/LamestWebserver/RequestHandlers/RequestHandler.cs:182-188 | the backward removal loop computes WithoutType |
| HandlerLists.WithoutTypeCounts | LamestWebserver/LamestWebserver/RequestHandlers/RequestHandler.cs:182-188 | exactly the handlers of the type go; every other handler keeps its number of copies |
| HandlerLists.FirstResponse | LamestWebserver/LamestWebserver/RequestHandlers/RequestHandler.cs:115-139 | the response of the first handler that answers, and none iff no handler answers |
| HandlerLists.RequestHandler.GetResponse | LamestWebserver/LamestWebserver/RequestHandlers/RequestHandler.cs:104-143 | strips the URL, then asks the primary and after them the secondary handlers; the first answer wins |
| HandlerLists.RequestHandler.AddRequestHandler | LamestWebserver/LamestWebserver/RequestHandlers/RequestHandler.cs:149-154 | appends only when no equal handler is listed; a duplicate-free list stays duplicate-free |
| HandlerLists.RequestHandler.InsertRequestHandler | LamestWebserver/LamestWebserver/RequestHandlers/RequestHandler.cs:162-166 | inserts at index without looking for an existing copy |
| HandlerLists.RequestHandler.RemoveRequestHandler | LamestWebserver/LamestWebserver/RequestHandlers/RequestHandler.cs:172-176 | removes the first equal handler; in a duplicate-free list the handler is then gone |
| HandlerLists.RequestHandler.RemoveRequestHandlers | LamestWebserver/LamestWebserver/RequestHandlers/RequestHandler.cs:182-188 | removes exactly the primary handlers of the type, keeping the others in order |
| HandlerLists.RequestHandler.InsertSecondaryRequestHandler | LamestWebserver/LamestWebserver/RequestHandlers/RequestHandler.cs:195-204 | takes out an existing copy, then places the handler at index; a duplicate-free list keeps it exactly once |
| HandlerLists.RequestHandler.RemoveSecondaryRequestHandler | LamestWebserver/LamestWebserver/RequestHandlers/RequestHandler.cs:210-214 | removes the first equal secondary handler |
| HandlerLists.RequestHandler.RemoveSecondaryRequestHandlers | LamestWebserver/LamestWebserver/RequestHandlers/RequestHandler.cs:220-226 | removes exactly the secondary handlers of the type, keeping the others in order |

## Left out

- Termination of the repair walks is not proved. balanceBubbleUp keeps walking after a rotation. balanceSelfBubbleUp does not advance after a rebalance. rebalance recurses while |balance| > 2. On trees that are not strictly balanced, none of these has an obvious decreasing measure. So the walks take a step budget (`fuel`) and report `done`. The structural invariant holds unconditionally: entries, order, side flags, count and the queue bijection. Exact depth counters (`Settled`) are promised only when the walk finished.
- AvlWalks.BalanceBubbleUp: exact counters are promised only when `done`, because of the step budget above.
- AvlWalks.BalanceSelfBubbleUp: exact counters are promised only when `done`, because of the step budget above.
- AvlWalks.RemoveNode: exact counters are promised only when `done`, because of the step budget above.
- AvlWalks.AddItem: exact counters are promised only when `done`, because of the step budget above.
- AvlWalks.FindRemove: exact counters are promised only when `done`, because of the step budget above.
- AvlWalks.RemoveKey: exact counters are promised only when `done`, because of the step budget above.
- HashMap.AVLHashMap.Add: `Settled()` afterwards only when the returned ghost `settled` holds, because of the step budget.
- HashMap.AVLHashMap.Remove: `Settled()` afterwards only when the returned ghost `settled` holds, because of the step budget.
- HashMap.AVLHashMap.RemovePair: `Settled()` afterwards only when the returned ghost `settled` holds, because of the step budget.
- HashMap.AVLHashMap.RemoveMatching: `Settled()` afterwards only when the returned ghost `settled` holds, because of the step budget.
- QueuedTree.QueuedAVLTree.Remove: `Settled()` afterwards only when the returned ghost `settled` holds, because of the step budget.
- QueuedTree.QueuedAVLTree.RemovePair: `Settled()` afterwards only when the returned ghost `settled` holds, because of the step budget.
- QueuedTree.QueuedAVLTree.RemoveMatching: `Settled()` afterwards only when the returned ghost `settled` holds, because of the step budget.
- QueuedTree.QueuedAVLTree.Add: when eviction's repair walk runs out of its step budget, the model returns early, after the eviction and without inserting. The contract admits that outcome only when `settled` is false, because of the step budget.
- Strict AVL balance (|balance| <= 1) is not proved. The source does not keep it: rebalance double-rotates when the heavy child is level, and a removal can leave ±2 off the repair path.
- GetHashCode is an abstract function given to the constructor. .NET hashing is not reproduced. Hash codes exclude int.MinValue, on which Math.Abs throws. `size > 0` is required, because the constructor does not check it.
- Keys are `int`. Equals is taken to agree with CompareTo == 0. Null keys, and the null checks that go with them, are not modelled.
- Queue.Enqueue's overflow guard is dead code: every enqueue follows CheckRoom, or happens when Add builds the root of an empty tree, whose queue size is 0. So `size < maxSize` holds before each enqueue. Enqueue requires the weaker `size <= maxSize`, under which its guard (`size > maxSize`) never fires.
- Serialization (GetObjectData, the deserializing constructor) is not part of this model.
- The ToString and debug dumps are not part of this model.
- AVLHashMap.GetEnumerator and CopyTo only throw NotImplementedException, so they are not part of this model.
- QueuedAVLTree.CopyTo is not part of this model.
- Locks and the `[ThreadStatic]` field are not modelled; every operation is single-threaded. GetResponseFunction's `_subUrl` is returned as an out value instead.
- ToLower is modelled on ASCII letters only.
- List.Insert's out-of-range exception is a precondition (`0 <= index <= Count`).
- InsertRequestHandler and InsertSecondaryRequestHandler take `index` without its default value 0; a caller passes 0 explicitly.
- IsNull is the only trace of null values. A TValue's own Equals is taken to be `==`, so a non-null value never equals a null one.
- PositionQueue.GetPassed and GetConsumable require `0 <= Position <= Count`; GetRange throws outside that range.
- PositionQueue.Peek and Pop require `Position >= 0`, since a negative public cursor makes the list index throw.
- PositionQueue.GetAll returns the list object itself. It is represented by the shared `List` field.
- IRequestHandler.Equals is equality on the abstract handler type. GetType is a function `TypeOf` from handler to type.
- The handlers' own GetResponse is the parameter `respond`.
- The directory handler's registrations are a `map` from directory to handler.
- The MIME table yields a `MediaType` (top type plus a subtype enumeration). `ToString` gives the header text; the xlsx text keeps its stray space.
- The QueuedAVLTree node code (Rebalance, RotateLeft/Right, BubbleUp, RemoveNode, AddItem) is a near copy of AVLHashMap's. Both containers use the one node model, so the table cites AVLHashMap's lines for it.

## Findings

| source | as written | input that shows it | evidently intended | confidence | as-written member | corrected member |
|---|---|---|---|---|---|---|
| LamestWebserver/LamestWebserver/RequestHandlers/RequestHandler.cs:1531-1545 | the backward scan stops at the first '/', so once `bestUrlMatch` ends in '/' and misses, the loop never shortens it again | URL "a/b", with neither "a/b/" nor "a/" registered: bestUrlMatch stays "a/" forever | step to the prefix up to the previous '/', ending at the longest registered prefix or "" | high, not executed | RequestUrls.DirectoryWalkAsWrittenHangs | RequestUrls.GetResponseFunction |
| LamestWebserver/LamestWebserver/Collections/AVLHashMap.cs:231-235 | returns `value.Equals(default(TValue))` | for a value type (int): an empty map reports any key as found; a key stored with a non-default value is reported as missing. For a reference type (as at both of the program's uses): a missing key throws NullReferenceException, and a key stored with a non-null value is reported as missing | found iff ContainsKey(key) | high, not executed | HashMap.TryGetValueInverted | HashMap.AVLHashMap.TryGetValue |
| LamestWebserver/LamestWebserver/RequestHandlers/RequestHandler.cs:1516-1517 | `Remove(0)` drops everything from index 0, not one character | "/a" becomes "" instead of "a"; hidden on the GetResponse path, whose strip loop already removed leading '/' | drop the single leading '/' | medium, not executed | RequestUrls.StripSlashAsWrittenLosesUrl | RequestUrls.StripSlash |
| LamestWebserver/LamestWebserver/RequestHandlers/RequestHandler.cs:487-488 | extension "bmp" maps to "image" | "bmp": the Content-Type has no subtype | "image/bmp" | medium, not executed | FileTypes.BmpTypeHasNoSubtype | FileTypes.GetMimeType |
