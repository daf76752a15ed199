# coen12 data structures in Dafny

This project models the data-structure core of the coen12 course
repository. Each module follows one C file:

- `PQueue` (`pqueue.dfy`) models `project5/pqueue.c`. It is an array-backed
  binary min-heap over a caller-supplied three-way comparator. The array
  doubles when it is full. `addEntry` sifts up and `removeEntry` sifts down.
  The index macros `p`, `l` and `r` are defined explicitly, so `p(0)` is 0 as
  under C's truncating division.
- `Huffman` (`huffman.dfy`) models steps 2 and 3 of `main` in
  `project5/huffman.c`, plus `compare` and `hopNumber`.
  - Step 2 seeds the queue with one leaf per byte value that occurs, plus a
    count-0 end-of-file leaf.
  - Step 3 merges the two smallest trees until one is left.
  - Nodes live in an arena of parallel arrays `count` and `parent`, indexed
    by creation order, with a `leaves[257]` table. A queue entry is the
    value `Tree(node, count)`: a node's count never changes once it is
    created, so the value is a faithful stand-in for the C pointer.
  - C nodes have no child links. The proofs keep a ghost record `kids` of
    which two nodes each merge consumed.
- `CString` (`cstring.dfy`) is the sign of the C library's `strcmp`: the
  lexicographic order on character sequences.
- `Unsorted` (`unsorted.dfy`) models `project2/unsorted.c`, a string set in
  an unsorted array with linear search and move-last-into-hole removal.
- `Sorted` (`sorted.dfy`) models `project2/sorted.c`, a string set in a
  strictly sorted array with binary search and shifting insert and remove.
- `HashTable` (`table.dfy`) models `project3/strings/table.c`, an
  open-addressing string set.
  - It uses linear probing from `strhash(elt) % length`.
  - Each slot carries an `EMPTY`, `FILLED` or `DELETED` flag, and removal
    leaves a `DELETED` tombstone.
  - `strhash` wraps modulo 2^32.
- `Deque` (`list.dfy`) models `project4/list.c`, a circular doubly-linked
  list with a dummy head node. The class keeps a ghost sequence `ring` of
  its nodes, with the dummy first, and a ghost sequence `items` of their
  data front to back.
- `ChainedSet` (`set.dfy`) models `project4/set.c`, a hash set whose
  `maxElts / 20` buckets are `Deque.List` objects. The ghost `buckets` holds
  each list's items.
- `Wrappers` (`wrappers.dfy`) holds `Option`, which stands for a C pointer
  result that may be `NULL`.

Comparators and hash functions are function-valued parameters.
- Where the heap and the Huffman code need it, the comparator is assumed to
  be a total preorder with `compare(x, x) == 0` (`PQueue.ValidComparator`).
- The list and the chained set assume nothing of their comparator. Their
  contracts are stated through the first element that `compare` finds equal
  (`Deque.FirstMatch`).

## Model

| member | source | states |
|---|---|---|
| PQueue.CDiv | project5/pqueue.c:6 | Division by 2 truncates toward zero: the remainder takes the sign of the dividend, unlike Dafny's `/`. |
| PQueue.Left | project5/pqueue.c:7 | `l(x)` is a later, odd slot whose parent under C's `(x-1)/2` is `x`. |
| PQueue.Right | project5/pqueue.c:8 | `r(x)` is a later, even slot whose parent under C's `(x-1)/2` is `x`. |
| PQueue.Parent | project5/pqueue.c:6-8 | `p(0)` is 0. For `i > 0`, `p(i) < i` and `i` is `l(p(i))` or `r(p(i))`. |
| PQueue.Swap | project5/pqueue.c:105-107 | The three-assignment swap exchanges entries `i` and `j` and leaves every other entry alone. |
| PQueue.SwapPermutes | project5/pqueue.c:143-145 | A swap does not change the multiset of entries. |
| PQueue.HeapRootIsMin | project5/pqueue.c:126 | In a heap, the root compares at most every entry (induction along parent links). |
| PQueue.HeapRootIsMinAll | project5/pqueue.c:126 | The root of a non-empty heap compares at most every element it holds. |
| PQueue.AppendStartsSiftUp | project5/pqueue.c:101-102 | Storing a new entry after a heap's last one breaks the heap property only at the new index. |
| PQueue.SiftUpStep | project5/pqueue.c:103-109 | A swap of a strictly smaller child with its parent moves the single fault one level up, and is never taken at the root. |
| PQueue.SiftUpDone | project5/pqueue.c:103 | When the entry is no smaller than its parent (including the root, its own parent), the array is a heap. |
| PQueue.SiftDownStep | project5/pqueue.c:132-146 | Swapping the parent with its smallest child, when that child is strictly smaller, moves the single fault one level down. |
| PQueue.SiftDownDone | project5/pqueue.c:142-150 | When the smallest child is no smaller than the parent, the array is a heap. |
| PQueue.MoveLastToRoot | project5/pqueue.c:126-131 | Moving the last entry into slot 0 and dropping a slot removes exactly one copy of the old root. |
| PQueue.Queue.constructor | project5/pqueue.c:45-57 | A new queue is valid and empty, with capacity 10 and the given comparator. |
| PQueue.Queue.NumEntries | project5/pqueue.c:79-81 | `numEntries` is the number of live entries. |
| PQueue.Queue.Grow | project5/pqueue.c:96-100 | Reallocation doubles the length and keeps the entries and the count. |
| PQueue.Queue.AddEntry | project5/pqueue.c:94-112 | The length doubles exactly when the array was full. The count grows by one, the entries become the old multiset plus the new entry, and the heap invariant holds. |
| PQueue.Queue.RemoveEntry | project5/pqueue.c:125-153 | The result is the old root and compares at most every old entry. The count drops by one, the entries lose exactly one copy of the result, the length is unchanged and the heap invariant holds. |
| PQueue.SwapEntries | project5/pqueue.c:105-107 | The array prefix becomes `Swap` of the old one, with the same multiset. |
| PQueue.Insert | project5/pqueue.c:101-110 | Storing and sifting up in a heap of `n` entries yields a heap of `n + 1` entries: the old multiset plus the new entry. |
| PQueue.SiftUp | project5/pqueue.c:103-110 | The sift-up loop turns the one-fault state into a heap and permutes the entries. |
| PQueue.SiftDown | project5/pqueue.c:132-151 | The sift-down loop, with the C code's child choice, turns the root-fault state into a heap and permutes the entries. |
| PQueue.DrainStep | project5/pqueue.c:125-153 | Appending a minimum of the remaining entries keeps the output sorted and no larger than anything still queued. |
| PQueue.AddAll | project5/pqueue.c:94-112 | Repeated `addEntry` from empty leaves exactly the given multiset queued. |
| PQueue.RemoveAll | project5/pqueue.c:125-153 | Repeated `removeEntry` empties the queue and yields its multiset in non-decreasing comparator order. |
| PQueue.AddAllThenRemoveAll | project5/pqueue.c:94-153 | `n` adds followed by `n` removes return a sorted permutation of the input. |
| Huffman.Compare | project5/huffman.c:41-43 | Returns -1, 0 or 1 exactly when the first count is less than, equal to or greater than the second. |
| Huffman.CompareIsValid | project5/huffman.c:41-43 | `compare` is a total preorder with `compare(x, x) == 0`, as the queue requires. |
| Huffman.UpStep | project5/huffman.c:30-32 | One more hop up the chain follows the parent link of the node reached so far. |
| Huffman.DepthIsHops | project5/huffman.c:28-35 | A walk that stops at the first node with no parent has taken exactly `Depth` hops. |
| Huffman.HopNumber | project5/huffman.c:28-35 | `hopNumber` returns the number of parent links from the node to the top of its chain: every earlier node on the chain has a parent and the last has none. |
| Huffman.ChainEndsAtRoot | project5/huffman.c:30-33 | In a finished tree, every node's chain ends at the single root. |
| Huffman.DepthZeroIffRoot | project5/huffman.c:28-35 | In a finished tree, a node is 0 hops from the root exactly when it is the root. |
| Huffman.CountPresentZero | project5/huffman.c:83-84 | No byte value gets a leaf exactly when every count is zero. |
| Huffman.SumCountsRemove | project5/huffman.c:111 | The total count of a set of queued trees splits off any one member's count. |
| Huffman.SumCountsAdd | project5/huffman.c:115 | Queueing a new tree adds its count to the total and one to the size. |
| Huffman.MergeKeepsForest | project5/huffman.c:110-114 | A merge creates node `n` as the parent of exactly the two trees removed, with their summed count. Every other parent link is unchanged. |
| Huffman.MergeKeepsMatches | project5/huffman.c:107-116 | After a merge, the queue again holds exactly the nodes without a parent. |
| Huffman.MergeKeepsTotal | project5/huffman.c:111-115 | A merge keeps the total queued count and shrinks the queue by one. |
| Huffman.OneTreeLeft | project5/huffman.c:107 | When one tree is left, the newest node is the single root, every other node has a parent, and the root's count is the total. |
| Huffman.SeedStarts | project5/huffman.c:75-80 | With every `leaves` entry NULL and an empty queue, seeding starts with no leaves and a zero total. |
| Huffman.SeedLeafShape | project5/huffman.c:86-90 | Creating the leaf of byte `i` as the next node keeps the leaf table exact for symbols below `i + 1`. |
| Huffman.SeedLeaf | project5/huffman.c:84-91 | Creating and queueing a leaf keeps the queue equal to the parentless nodes, with one more entry and the byte's count added to the total. |
| Huffman.SeedSkip | project5/huffman.c:84 | A byte value with count 0 gets no leaf. |
| Huffman.SeedingBytesStep | project5/huffman.c:83-92 | One iteration of the seeding loop keeps the loop invariant: leaves exactly for the bytes seen with nonzero count, and the queue total equal to their counts. |
| Huffman.MakeLeaf | project5/huffman.c:86-90 | A new parentless leaf node with the given count is queued and recorded in `leaves`. |
| Huffman.PlaceLeaf | project5/huffman.c:84-91 | The body of the seeding loop for an occurring byte keeps every seeding invariant. |
| Huffman.NewArena | project5/huffman.c:75-80 | The queue starts empty with `compare`, every `leaves` entry NULL and every node parentless. |
| Huffman.SeedBytes | project5/huffman.c:83-92 | After the loop over the 256 byte values, `leaves[i]` is set exactly for the bytes that occur. The queue holds exactly those leaves and its total is the sum of all counts. |
| Huffman.SeedLeaves | project5/huffman.c:75-99 | Step 2 yields one leaf per occurring byte plus the count-0 end-of-file leaf, all of them queued. |
| Huffman.Link | project5/huffman.c:110-114 | The new node's count is the sum of its two children's. It has no parent, and both children now point to it. |
| Huffman.TakeTwo | project5/huffman.c:108-109 | Two `removeEntry` calls return a minimum and then a minimum of the rest, and remove exactly those two entries. |
| Huffman.Attach | project5/huffman.c:110-115 | The merged node is linked and queued. |
| Huffman.MergeTwo | project5/huffman.c:108-115 | One merge-loop body: the two smallest trees leave the queue and their merged parent enters it. |
| Huffman.MergingStarts | project5/huffman.c:98-107 | Before the first merge, every leaf is a tree of its own. |
| Huffman.QueuedBelow | project5/huffman.c:107-116 | Every queued tree is a node already created. |
| Huffman.MergeStep | project5/huffman.c:107-116 | One merge keeps the forest, the queue-parentless correspondence and the total, with one tree fewer. |
| Huffman.MergeOnce | project5/huffman.c:108-115 | The merge-loop body keeps the loop invariant and never changes leaf counts. |
| Huffman.MergeAll | project5/huffman.c:107-116 | From `k` leaves the loop runs `k - 1` times and creates `2k - 1` nodes. It ends with exactly one entry queued: the newest node, the single root, whose count is the total of the leaf counts. |
| Huffman.LastTreeQueued | project5/huffman.c:107 | When the loop exits with one tree, the queue holds exactly the newest node with its count. |
| Huffman.Build | project5/huffman.c:75-116 | Steps 2 and 3 together. Leaves exist exactly for occurring bytes and end-of-file, each carrying its count. The arena is one strictly binary tree whose root count is the number of input bytes. |
| Huffman.LeafDepths | project5/huffman.c:95-107 | If some byte occurs, there are at least two leaves and every leaf is at least one hop from the root. With no bytes, the end-of-file leaf is the root at 0 hops. |
| CString.Strcmp | project2/sorted.c:88 | The sign of `strcmp` is -1, 0 or 1, and is 0 exactly for equal strings. |
| CString.StrcmpAntisymmetric | project2/sorted.c:88-93 | Swapping the arguments flips the sign. |
| CString.LessTransitive | project2/sorted.c:86-99 | The order `strcmp` induces is transitive. |
| CString.LessTotal | project2/sorted.c:86-99 | Any two distinct strings are ordered one way or the other. |
| Unsorted.SwapRemoveMembers | project2/unsorted.c:102-104 | Moving the last element into the hole keeps the elements distinct and removes exactly the one at the hole. |
| Unsorted.Set.constructor | project2/unsorted.c:30-41 | A new set is empty with length `maxElts`. |
| Unsorted.Set.NumElements | project2/unsorted.c:67-70 | The number of elements. |
| Unsorted.Set.Search | project2/unsorted.c:151-162 | Returns the smallest index holding `elt`, or -1 exactly when it is absent. |
| Unsorted.Set.AddElement | project2/unsorted.c:79-87 | Appends `elt` only when it is absent. Otherwise nothing changes, and no duplicates arise. |
| Unsorted.Set.RemoveElement | project2/unsorted.c:96-106 | A present element's slot receives the last element and the count drops. The members become the old ones minus `elt`, and an absent element changes nothing. |
| Unsorted.Set.FindElement | project2/unsorted.c:115-126 | Returns `elt` exactly when an equal string is stored, else NULL. |
| Unsorted.Set.GetElements | project2/unsorted.c:134-142 | A new array holding the elements in array order. |
| Unsorted.MoveLastInto | project2/unsorted.c:102 | The store into the hole leaves the prefix equal to `SwapRemove` of the old one. |
| Sorted.InsertKeepsSorted | project2/sorted.c:117-123 | Inserting at the gap that `search` reports keeps the array strictly sorted and adds exactly `elt`. |
| Sorted.RemoveKeepsSorted | project2/sorted.c:140-143 | Closing the gap at a found index keeps the array strictly sorted and removes exactly that element. |
| Sorted.Set.constructor | project2/sorted.c:31-42 | A new set is empty with length `maxElts`. |
| Sorted.Set.NumElements | project2/sorted.c:68-71 | The number of elements. |
| Sorted.Set.Search | project2/sorted.c:81-102 | The binary search terminates. Either `elt` is at the returned index, or everything before the index is smaller and everything from it on is larger. `found` holds exactly when `elt` is stored. |
| Sorted.Set.AddElement | project2/sorted.c:111-125 | The array stays strictly sorted. The members gain `elt`, and the count grows only if `elt` was absent; a present element changes nothing. |
| Sorted.Set.RemoveElement | project2/sorted.c:134-145 | The array stays strictly sorted. The members lose `elt`, and the count drops only if `elt` was present; an absent element changes nothing. |
| Sorted.Set.FindElement | project2/sorted.c:154-164 | Returns `elt` exactly when it is stored, else NULL. |
| Sorted.Set.GetElements | project2/sorted.c:171-179 | A new array holding the elements in sorted order. |
| Sorted.ShiftRight | project2/sorted.c:118-121 | The shift loop moves `data[index..count)` one slot right and keeps the prefix. |
| Sorted.ShiftLeft | project2/sorted.c:140-142 | The shift loop closes the gap at `index`. |
| HashTable.StrHash | project3/strings/table.c:35-41 | The hash is below 2^32. |
| HashTable.PolyAppend | project3/strings/table.c:38 | One more character multiplies the polynomial by 31 and adds the character. |
| HashTable.ModStep | project3/strings/table.c:38 | Reducing modulo 2^32 after every step equals reducing once at the end. |
| HashTable.StrHashIsPoly | project3/strings/table.c:35-41 | `strhash` is the polynomial sum of `c_k * 31^(n-1-k)` modulo 2^32. |
| HashTable.Home | project3/strings/table.c:112 | The home slot lies within the table. |
| HashTable.Probe | project3/strings/table.c:116 | Every probed slot lies within the table. |
| HashTable.ProbeIsMod | project3/strings/table.c:116 | Probe step `k` is `(head + k) % length`. |
| HashTable.Dist | project3/strings/table.c:115-116 | Every slot is reached by some probe step below `length`. |
| HashTable.ProbeInjective | project3/strings/table.c:115-116 | Within `length` steps, a probe never visits a slot twice. |
| HashTable.FilledCount | project3/strings/table.c:19 | The number of FILLED flags is at most the length. |
| HashTable.FilledCountUpdate | project3/strings/table.c:152-153 | Changing one flag changes the FILLED count by that flag's change. |
| HashTable.FilledCountFull | project3/strings/table.c:115-131 | Every slot is FILLED exactly when the count equals the length. |
| HashTable.FilledCountZero | project3/strings/table.c:57-64 | No slot is FILLED exactly when the count is zero. |
| HashTable.FilledCountPrefix | project3/strings/table.c:204-208 | The FILLED slots of a prefix number at most the whole's. |
| HashTable.FilledIn | project3/strings/table.c:204-208 | The slot-order listing of FILLED strings has as many entries as FILLED slots. |
| HashTable.StoredSnoc | project3/strings/table.c:204-208 | The stored strings grow slot by slot. |
| HashTable.FilledInStored | project3/strings/table.c:199-211 | The listing holds exactly the stored strings. |
| HashTable.AddStored | project3/strings/table.c:151-152 | Storing `x` in a slot that is not FILLED adds exactly `x`. |
| HashTable.AddKeepsTable | project3/strings/table.c:146-155 | Storing an absent string where its probe stopped keeps the three invariants (count, distinctness, reachability) and adds exactly that string. |
| HashTable.RemoveStored | project3/strings/table.c:170 | Marking a FILLED slot DELETED removes exactly its string. |
| HashTable.RemoveKeepsTable | project3/strings/table.c:164-173 | A tombstone keeps the three invariants and removes exactly the slot's string. |
| HashTable.PassedStep | project3/strings/table.c:115-127 | One more probe step past a non-EMPTY slot not holding `elt` keeps the loop state, remembering the first DELETED slot. |
| HashTable.ProbeStopsAbsent | project3/strings/table.c:128-132 | A probe that reaches an EMPTY slot, or runs through the whole table, without a match shows `elt` absent. |
| HashTable.ProbeAllFilled | project3/strings/table.c:115-131 | A probe that sees every slot FILLED shows the table full. |
| HashTable.MarkEmpty | project3/strings/table.c:62-64 | Every flag becomes EMPTY. |
| HashTable.Set.constructor | project3/strings/table.c:51-67 | A new table has count 0, length `maxElts`, every flag EMPTY and no members. |
| HashTable.Set.NumElements | project3/strings/table.c:96-99 | The count is the number of FILLED slots. |
| HashTable.Set.Search | project3/strings/table.c:111-137 | `found` holds exactly when `elt` is stored, and then the slot holds it. Otherwise the index is the first DELETED slot passed, else where probing stopped, and it is not FILLED unless the table is full. |
| HashTable.Set.AddElement | project3/strings/table.c:146-155 | The members gain `elt`, and a present element changes nothing. An absent one is stored at the first slot on its probe path that is not FILLED, that slot alone becomes FILLED, every other slot is unchanged, and the count grows by one. |
| HashTable.Set.RemoveElement | project3/strings/table.c:164-173 | The members lose `elt`; `data` is unchanged. A present element's FILLED slot, which holds it, alone becomes DELETED and the count drops by one; an absent element changes nothing. No flag turns EMPTY. |
| HashTable.Set.FindElement | project3/strings/table.c:182-192 | Returns the stored string exactly when an equal one is present, else NULL. |
| HashTable.Set.GetElements | project3/strings/table.c:199-211 | A new array of exactly `count` strings: the FILLED slots in slot order, which are exactly the members. |
| Deque.FirstMatch | project4/list.c:251-256 | The index of the first item `compare` finds equal to `x`, or the length when none is. |
| Deque.RemoveAtCount | project4/list.c:226-229 | Taking out one item removes exactly one copy of it. |
| Deque.RemoveFirstMatchCount | project4/list.c:219-236 | `removeItem` takes out exactly the first match and shortens the list by one, or changes nothing when nothing matches. |
| Deque.Node.constructor | project4/list.c:102-103 | A new node carries the item. |
| Deque.InsertLinked | project4/list.c:105-109 | Splicing a node in after a ring position yields a linked ring one longer. |
| Deque.UnlinkLinked | project4/list.c:226-227 | Bypassing a node yields a linked ring one shorter. |
| Deque.InsertDistinct | project4/list.c:102 | A fresh node keeps the ring free of repeats. |
| Deque.UnlinkDistinct | project4/list.c:226-227 | Removing a node keeps the ring free of repeats. |
| Deque.InsertCarries | project4/list.c:103-109 | The spliced ring carries the items with the new item at that position. |
| Deque.UnlinkCarries | project4/list.c:226-227 | The shortened ring carries the items without the bypassed one. |
| Deque.InsertAfter | project4/list.c:105-109 | The four stores of `addFirst`, in their order, splice the node in after the given one. |
| Deque.InsertBefore | project4/list.c:128-132 | The four stores of `addLast`, in their order, splice the node in before the head. |
| Deque.Bypass | project4/list.c:153-154 | The two stores that unlink a node. |
| Deque.List.constructor | project4/list.c:50-64 | A new list is empty, with the dummy's `next` and `prev` pointing to itself. |
| Deque.List.NumItems | project4/list.c:86-89 | The number of items. |
| Deque.List.AddFirst | project4/list.c:101-112 | Prepends the item; the rest is unchanged. |
| Deque.List.AddLast | project4/list.c:124-135 | Appends the item; the rest is unchanged. |
| Deque.List.RemoveFirst | project4/list.c:147-160 | Needs a non-empty list. Returns the first item and removes exactly it. |
| Deque.List.RemoveLast | project4/list.c:172-185 | Needs a non-empty list. Returns the last item and removes exactly it. |
| Deque.List.GetFirst | project4/list.c:193-196 | Needs a non-empty list. Returns the first item. |
| Deque.List.GetLast | project4/list.c:204-207 | Needs a non-empty list. Returns the last item. |
| Deque.List.RemoveItem | project4/list.c:219-236 | Needs a non-empty list. Removes only the first item `compare` finds equal, and nothing if none matches. |
| Deque.List.Unlink | project4/list.c:226-229 | Unlinking a node removes exactly its item from the ring and the items. |
| Deque.List.FindItem | project4/list.c:246-258 | Returns the first item `compare` finds equal, or NULL when none is. |
| Deque.List.GetItems | project4/list.c:267-277 | A new array of the items, front to back. |
| Deque.List.DestroyList | project4/list.c:73-78 | Repeated `removeLast` leaves the list empty. |
| ChainedSet.FlattenUpdate | project4/set.c:136-152 | Replacing one bucket replaces exactly its elements in the concatenation. |
| ChainedSet.FlattenUpdateSize | project4/set.c:136-152 | Replacing one bucket changes the total size by the change in its size. |
| ChainedSet.FlattenPrefix | project4/set.c:136-152 | The first buckets hold no more elements than all of them. |
| ChainedSet.AddedKeeps | project4/set.c:89-93 | Adding to `elt`'s own bucket keeps it free of repeats and keeps every element in its hash bucket. |
| ChainedSet.RemovedKeeps | project4/set.c:107-110 | Removing from a bucket keeps it free of repeats and keeps every element in its hash bucket. |
| ChainedSet.AddStep | project4/set.c:91-92 | Prepending an absent element to its bucket grows the total by one and keeps the bucket invariants. |
| ChainedSet.RemoveStep | project4/set.c:109-110 | Removing a present element from its bucket shrinks the total by one and keeps the bucket invariants. |
| ChainedSet.AddedElements | project4/set.c:87-95 | Adding changes the elements by exactly `elt` when its bucket has no match, and not at all otherwise. |
| ChainedSet.RemovedElements | project4/set.c:105-112 | Removing takes out exactly the bucket's first match, or changes nothing when there is none. |
| ChainedSet.AddTwice | project4/set.c:87-95 | Adding twice equals adding once. |
| ChainedSet.AddThenRemove | project4/set.c:87-112 | Removing a freshly added element gives the bucket back. |
| ChainedSet.AddFront | project4/set.c:91-92 | `addFirst` on the element's bucket prepends it, and every other bucket's list is unchanged. |
| ChainedSet.RemoveFrom | project4/set.c:109-110 | `removeItem` on the element's bucket removes its first match, and every other bucket's list is unchanged. |
| ChainedSet.Set.constructor | project4/set.c:36-55 | A new set has count 0 and `maxElts / 20` buckets, each an empty list. |
| ChainedSet.Set.NumElements | project4/set.c:74-77 | The count is the total number of elements over all buckets. |
| ChainedSet.Set.AddElement | project4/set.c:87-95 | Only bucket `hash(elt) % length` changes. `elt` goes to its front only when `findItem` finds no match, and the count stays the sum of bucket sizes. |
| ChainedSet.Set.Insert | project4/set.c:91-93 | The found-nothing branch of `addElement`. |
| ChainedSet.Set.RemoveElement | project4/set.c:105-112 | Only bucket `hash(elt) % length` changes. Its first match is removed only when `findItem` finds one, and the count stays the sum of bucket sizes. |
| ChainedSet.Set.Delete | project4/set.c:109-111 | The found branch of `removeElement`. |
| ChainedSet.Set.FindElement | project4/set.c:122-126 | Returns the first match in `elt`'s bucket, or NULL. |
| ChainedSet.Set.GetElements | project4/set.c:136-152 | A new array of the buckets' items, concatenated in bucket order, each front to back. |
| ChainedSet.NewLists | project4/set.c:49-51 | The loop of `createSet` makes `length` new empty lists that share no nodes. |
| ChainedSet.CopyInto | project4/set.c:144-147 | The inner loop of `getElements` appends a bucket's items after those already copied. |
| ChainedSet.FlattenEmpty | project4/set.c:49-51 | All-empty buckets hold no elements. |

## Left out

- Input and output. The frequency pass of `main` in `project5/huffman.c` (lines 53-69) is not modelled: the 257 occurrence counts are the input of `Huffman.Build`. The report loop (lines 124-137) prints `hopNumber` for each leaf; `Huffman.HopNumber` and `Huffman.LeafDepths` cover the numbers it prints, but not the printing. `pack` (line 142) is not part of this model. `project1/count.c` is file I/O only and is not modelled.
- Memory management. `malloc`, `realloc`, `free` and `strdup` become Dafny allocation and value copies, and allocation failure is not modelled. The freeing done by `destroyQueue` and each `destroySet` is not modelled. `Deque.List.DestroyList` models only the `removeLast` loop.
- C `int` overflow of counts, indices and occurrence numbers is not modelled: they are unbounded naturals. `strhash`'s unsigned wrap-around is modelled modulo 2^32, and characters are taken as the values of their Dafny `char`.
- Pointer identity of `void *` payloads. Items are values, so the list, queue and chained set cannot tell two equal payloads apart by address. A C `NULL` result is `None`. The `NULL` that `removeElement` of `project2/unsorted.c` stores past the last element (line 103) is not modelled, since that slot is outside the live elements.
- The comparator and hash function pointers are Dafny functions. The `assert`s against `NULL` pointers are not modelled.
- The optimality of the Huffman tree is not modelled.
- Unsorted.Set.AddElement: requires room for an absent element (`count < length`), since `project2/unsorted.c` does not check capacity and would write past the array.
- Sorted.Set.AddElement: requires room for an absent element, for the same reason.
- HashTable.Set.AddElement: requires room for an absent element. When the table is full, `search` in `project3/strings/table.c` returns the last FILLED slot it probed, and `addElement` would overwrite it.
- HashTable.Set.Search: requires a non-empty table, since `strhash(elt) % length` divides by the length. The same holds for `HashTable.Set.AddElement`, `HashTable.Set.RemoveElement` and `HashTable.Set.FindElement`.
- ChainedSet.Set.AddElement: requires at least one bucket (`maxElts >= 20`), since `hash(elt) % length` divides by the number of buckets. The same holds for `ChainedSet.Set.RemoveElement` and `ChainedSet.Set.FindElement`.
- PQueue.Queue.RemoveEntry: requires a non-empty queue; the C code does not check and would read `data[-1]`.
- PQueue.Queue.constructor: requires a comparator that is a total preorder with `compare(x, x) == 0`. The heap property relies on this, but the C code only asserts that `compare` is not `NULL`.
- The queue's `compare` is called through a pointer taking two `void *`. Huffman's `compare` reads `count` through those pointers. Because a queued node's count never changes, the model queues the pair of node and count.
- HashTable.StrHash: characters are not sign-extended as a signed C `char` would be.
- CString.Strcmp: compares whole character sequences. A sequence with an embedded NUL character has no C counterpart, since C's `strcmp` stops at the first NUL; no member builds one.
