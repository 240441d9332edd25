# Verified models of the kernel's library cores

Dafny models of the algorithms in `lib/`, the container headers and the coroutine scheduler, each proved against what
its source promises. `dafny verify dfyconfig.toml` checks all of it.

What is modelled, one group of files for each component:

- **B+tree** (`btree*.dfy`): blocks are objects with key and slot arrays, and the code works on them in place. A ghost
  tower lists the levels; it ties the blocks to a finite map from keys to values. The source counts levels from 1, the
  model from 0. Keys are single words other than 0, and `keynum` is even and at least 4, as in all shipped layouts.
  Allocation may fail: a budget says how many blocks are left. The callbacks `clash` and `remove` are functions.
- **List sorts** (`list-*.dfy`): rings of nodes with `next` and `prev`, relinked in place. The specification is the
  stable sort of a sequence.
- **Heap** (`heap*.dfy`): linked nodes, with the level order of the nodes as ghost sequence.
- **Glob** (`glob.dfy`): the matcher with its one backtrack point, against tokens with the plain meaning;
  `glob-written.dfy` writes patterns out and reads them back.
- **Calendar** (`rtc.dfy`): multiply-and-shift arithmetic against the count of days by years and months.
- **GNU MO images** (`libmo*.dfy`): verifier and lookup on a sequence of bytes. The hash function and the string
  comparison are parameters; `libmo-written.dfy` writes images out and reads them back, and `libmo-prefix.dfy` is about the
  comparison the repository has.
- **Coroutines** (`kcoro.dfy`): the worker as a step machine with a ready and a blocked tree, which are sequences in
  order of their keys. Switching is the end of a step. Clock, tick count and weighting are parameters.
- **Tree iterators and interval search** (`tree-iter.dfy`, `segtree.dfy`): cursor loops over linked nodes, against
  recursive traversals.
- **Lock-free list** (`llist.dfy`): every access to shared memory is a step of its own, and the theorems are about all
  interleavings. Memory is sequentially consistent.
- **Ring buffer** (`kfifo.dfy`): measuring, copying, in one step or byte by byte, and moving the index are separate steps
  of one producer and one consumer. Each step keeps the invariant, so it holds over all interleavings.
- **JSON parser** (`json-table.dfy`, `json-machine.dfy`, `json.dfy`): the table, a plain machine with one list of open
  containers, and the parser with its two stacks proved against it; `json-document.dfy` writes documents out and parses
  them back.
- **Clock scaling** (`clockcloc.dfy`) and **LRU cache** (`lru.dfy`).
- `words.dfy` has the arithmetic of machine words that these share.

Where code and documentation or evident intent disagree, the model follows the code and says so:

- `glob_match` lets an inverted bracket take the terminator of the text (lib/glob.c:51), and a range from a negative to a
  positive character too. The exact texts are proved.
- The repository's `strcmp` (lib/libc/string.c:123) calls an id equal to each of its extensions, so `libmo_lookup` can
  return another message. The exact condition, an accepted image on which it happens and a remedy are proved.
- `btree_remove` of an absent key compares behind a full leaf (lib/btree.c:429-435). The exact condition and a
  reachable tree are proved.
- `heap_find` ignores its index (lib/heap.c:215-228).
- `rtc_time_to_tm` takes four times the day number in 32 bits (lib/librtc.c:104). The exact range is proved.
- `clock_cloc_mult_shift` leaves shift 0 beside the multiplier of shift 1 when its loop runs out.
- `lrc_obtain` counts a node as used a second time when it is committed, on the using list, and without a reference. A
  run that does so, and when the counter is exact, are proved.
- `get_string` adds in 32 bits (lib/libmo.c:110): a descriptor that wraps passes. The exact condition is proved.
- `json_parse` leaves its loop before it stores a number or word that ends with the root container (lib/json.c:145), and
  marks an object as an array too when a bracket is out of place. It also skips blanks between a backslash and the
  character it stands before, and takes blanks behind a number or word for a part of it.

## Model

| member | source | states |
|---|---|---|
| Btree.BtreeRoot.Insert | lib/btree.c:270-347 | The tree denotes a finite map and an insertion adds exactly one binding. On a key already there the answer is -EALREADY, or what the clash callback says of the stored and the new value; on NULL it is -EINVAL; memory can only run out when a leaf is full and fewer blocks are left than levels plus one. In all these cases the map is unchanged. Order, separators, equal depth and fill of all blocks are kept, and every block is accounted for |
| Btree.BtreeRoot.Place | lib/btree.c:286-327 | The loop finds the one block for the key, splits it at most once, and leaves all entries of the level as they were |
| Btree.BtreeRoot.Remove | lib/btree.c:413-466 | Removal of a present key returns its value and deletes only that binding, unless the remove callback refuses, and then nothing changes. An absent key changes nothing either, except where the comparison reads behind a full leaf; the exact condition is OverrunAt |
| BtreeOverrun.Overruns | lib/btree.c:429-435 | A reachable tree on which the removal of an absent key reads behind the block: four keys inserted into blocks of four, the first value equal to the key asked for |
| Btree.BtreeRoot.RemoveRebalance | lib/btree.c:371-411 | After an entry was taken out, merging with a sibling or dropping an empty child restores order, separators and fill of the level and of all levels above, and moves no entry of the level |
| Btree.BtreeRoot.RebalanceMerge | lib/btree.c:352-369 | Merging two siblings through the swapped slots of the parent keeps all entries of the level in order and takes exactly one separator out of the level above |
| Btree.BtreeRoot.Extend | lib/btree.c:237-256 | A new root has one entry, the last key of the old root, or is an empty leaf; without memory nothing changes |
| Btree.BtreeRoot.FindParent | lib/btree.c:150-170 | The descent reaches the block whose range covers the key; separators are only ever lowered to the key, and nothing else changes |
| Btree.BtreeRoot.Lookup | lib/btree.c:199-214 | Lookup agrees with the map for present and absent keys |
| Btree.BtreeRoot.Update | lib/btree.c:217-234 | Update replaces the value of a present key and reports an absent one, and leaves all other bindings alone |
| Btree.BtreeRoot.ForEach | lib/btree.c:493-554 | From btree_first, btree_next visits every binding once in strictly descending order of keys and then returns NULL |
| Btree.BtreeRoot.ForEachReverse | lib/btree.c:509-582 | From btree_last, btree_prev gives the exact reverse; on a tree whose entries were all removed, and only there, btree_last reads in front of the first slot |
| Btree.BtreeRoot.Destroy | lib/btree.c:469-482 | Destruction empties the tree while a cursor runs ahead, and returns every block to the allocator |
| BtreeNodes.BtreeNode.SplitInto | lib/btree.c:312-326 | The loop that splits a full block leaves one half in each block, in order |
| BtreeNodes.SplitInOrderIffEven | lib/btree.c:312-326 | The split keeps the order of the entries if and only if their number is even: the odd tail puts the last entry in front |
| ListSort.ListQsort | lib/list-sort.c:75-120 | The ring holds the same nodes with consistent links in both directions, for any comparison at all; for a total preorder it is the stable sort |
| ListSort.Settle | lib/list-sort.c:86-97 | The runs the loop joins exist and have equal length, the power of two given by the trailing one bits of the counter |
| ListSort.NoMoreRuns | lib/list-sort.c:84-104 | While the counter has not wrapped, the pending runs are exactly those that the bits of the counter spell, and no others |
| ListRuns.StepSizes | lib/list-sort.c:86-97 | The run lengths for c + 1 nodes come from those for c by at most one join of two equal lengths |
| ListSort.ListMerge | lib/list-sort.c:5-32 | The merge of two chains in place is the stable merge, the earlier one first where the comparison says equal |
| ListSort.ListFinish | lib/list-sort.c:34-73 | The last merge also restores the prev links and closes the ring at the head |
| ListSort.ListBsort | lib/list-sort.c:123-146 | Bubble sort gives the same sequence as ListQsort for lists of up to 2^32 nodes, and a permutation for all |
| ListOrder.SortOfUnique | lib/list-sort.c:75-146 | A sorted sequence that keeps the order of equal elements is the stable sort, and the only one, so that both sorts agree |
| Heap.HeapRoot.Insert | include/heap.h:191-197 | The nodes fill positions 1 to count of a complete tree with matching parent links, the set grows by the node, and every parent stays before its children |
| Heap.HeapRoot.Delete | include/heap.h:204-219 | Deleting any node takes exactly it away and restores shape and order |
| Heap.HeapRoot.ParentSwap | lib/heap.c:11-40 | Relinking a node with its parent exchanges the two positions and nothing else |
| Heap.HeapRoot.Fixup | lib/heap.c:48-57 | Moving a node up repairs a heap that is in order but for it |
| Heap.HeapRoot.Erase | lib/heap.c:66-96 | Moving a node to where its place is repairs a heap with a hole in its order |
| Heap.HeapRoot.RemoveNode | lib/heap.c:104-177 | The node at the last position takes the place of the removed one, all other positions stay |
| Heap.HeapRoot.ParentOf | lib/heap.c:187-207 | The bits of count + 1 lead to the one free link of that position |
| Heap.HeapRoot.Find | lib/heap.c:215-228 | The index argument is ignored: the node at position count is returned, which is the one asked for if and only if the index is count |
| Heap.HeapRoot.ForEach | include/titer.h:204-228 | Level order iteration visits the positions 1 to count in order |
| HeapOrder.RootLeast | lib/heap.c:48-57 | In an ordered heap the root comes before every node |
| Glob.GlobMatch | lib/glob.c:9-77 | For all C strings the matcher says yes exactly for the texts that match under the plain reading in which every star stands for any text, and it overruns the text exactly when the longest part of the pattern that matches the whole text is followed by a bracket that takes the terminator |
| Glob.StarForget | lib/glob.c:28-33 | All but the last star can be forgotten: what a longer stretch for an older star could reach, the newer star reaches |
| Glob.RunawayUnsafe | lib/glob.c:35-60 | Only a pattern with a bracket that takes the terminator, behind satisfiable tokens, can overrun |
| Glob.UnsafePatternOverruns | lib/glob.c:35-60 | Each such pattern does overrun on some text |
| Glob.AsciiDevours | lib/glob.c:35-55 | Brackets of ASCII characters take the terminator if and only if they are inverted |
| GlobWritten.ReadParts | lib/glob.c:17-60 | A pattern written out of question marks, stars, plain and escaped characters, brackets with single characters and ranges, inverted or not, brackets that are never closed and a last backslash is read as exactly these parts |
| GlobWritten.MatchWritten | lib/glob.c:9-77 | On a written pattern the matcher says yes exactly for the texts that match its parts |
| GlobWritten.BracketTakes | lib/glob.c:35-55 | A bracket takes the characters that one of its items names, an inverted one all others |
| GlobWritten.Together | lib/glob.c:9-77 | Parts in a row match texts in a row: matching is concatenation, with a star for any text and every other token for one character |
| Rtc.TimeToTm | lib/librtc.c:57-146 | The result is a valid Gregorian date with the day number of the time, the matching day of the year and of the week, and a time of day that recomposes the rest |
| Rtc.ExactRange | lib/librtc.c:102-106 | The day number is right exactly for days + 719468 below 2^30, since 4 times that number is taken in 32 bits |
| Rtc.FirstWrong | lib/librtc.c:102-106 | The first day beyond comes out as March 1st of year 0 |
| Rtc.DateUnique | lib/librtc.c:57-146 | A day number belongs to one valid date only |
| Rtc.YearSplit | lib/librtc.c:108-111 | The 2939745 multiplication and shift equal the division by 1461 and its remainder |
| Rtc.MonthSplit | lib/librtc.c:118-120 | The 2141 multiplication and shift give the month from March on and the day in it |
| Rtc.YearTable | lib/librtc.c:46-49 | The table of rtc_year_days is the sum of the months before |
| Libmo.Verify | lib/libmo.c:131-228 | If its probes end and no descriptor wraps, the verifier accepts exactly the images whose ids can be read and are in order, whose table holds every message number once, and on which the probe for each id reaches it; it never reads outside the image |
| Libmo.PrimeAllEnd | lib/libmo.c:198-222 | With a prime table size all probes of the verifier end, whatever the table holds |
| Libmo.LookupId | lib/libmo.c:231-270 | On an accepted image a lookup that ends stops within hash_size steps, at the first message on its probe that the comparison calls equal or at an empty entry; a stored id is never reported missing; when the comparison is exact on the stored ids the message found has the id asked for |
| Libmo.Ends | lib/libmo.c:231-270 | A lookup ends for every stored id that the comparison calls equal to itself, and for every id in a table of prime size with an empty entry |
| Libmo.Strcmp | lib/libc/string.c:123-128 | The strcmp of the repository calls two strings equal if and only if the first is not empty and a prefix of the second |
| LibmoPrefix.RightUnlessExtended | lib/libmo.c:242-263 | With that strcmp the message found is the right one if and only if no id that extends the one asked for is met first on the probe |
| LibmoPrefix.WrongMessage | lib/libmo.c:242-263 | An accepted image with the ids ab and abc, hashed by pjwhash, on which the lookup of ab returns the translation of abc |
| LibmoPrefix.PairHashes | lib/stringhash.c:30-46 | pjwhash of ab and abc is 1650 and 26499 |
| LibmoPrefix.NoExtensionExact | lib/libmo.c:231-270 | The test a caller can make: the comparison is exact for an id if and only if no stored id properly extends it |
| LibmoPrefix.LengthMakesRight | lib/libmo.c:255-255 | A caller that passes the length of the id is never given another message |
| LibmoPrefix.EmptyQuery | lib/libmo.c:231-270 | The empty id is found if and only if the comparison of two empty strings, which reads behind their ends, says equal |
| LibmoProbe.AllMet | lib/libmo.c:218-221 | Double hashing with a prime table size meets every entry within size steps |
| LibmoProbe.CompositeMisses | lib/libmo.c:218-221 | For every larger size that is not prime there is an increment with which the probe misses an entry for ever |
| LibmoProbe.PrimeIffMeets | lib/libmo.c:218-221 | Every start and every increment from 1 to size - 2 meets every entry if and only if the size is prime |
| Libmo.StringInside | lib/libmo.c:99-122 | A string handed out lies inside the image with its terminator, unless the 32-bit sum wrapped |
| Libmo.InsideIffNoWrap | lib/libmo.c:110-121 | In an image below 2^32 bytes a string handed out lies inside it if and only if its descriptor does not wrap |
| Libmo.WildIff | lib/libmo.c:110-115 | The check itself reads outside exactly when offset, length and terminator add up to 2^32 |
| Libmo.WrappedAccepted | lib/libmo.c:110-115 | A descriptor whose sum wraps is accepted although its string starts outside |
| LibmoWritten.WordIff | lib/libmo.c:86-97 | A word below 2^32 is read exactly where its four bytes stand, lowest first, or highest first in an image of the other byte order; otherwise the image is too short |
| LibmoWritten.StringRead | lib/libmo.c:99-122 | A string written behind its descriptor, length first, is read back |
| LibmoWritten.AcceptedIff | lib/libmo.c:131-228 | An image written out of ids, translations and a table is accepted exactly when the ids are in order, the table lists every number once, and each id is found from its hash on by steps of 1 and the hash modulo the size less 2 |
| LibmoWritten.LookupWritten | lib/libmo.c:231-270 | On such an image, with a comparison that is exact on its ids, an id gives a translation of that id and another string gives nothing |
| Kcoro.Worker.Yield | kernel/kcoro.c:118-161 | Every started work stays in exactly one place; afterwards the running work has the least virtual time of all that are ready, its clock starts now and all other clocks stand still; what is blocked is woken exactly when its time has come; and a yield that advances its work brings every waiting work strictly closer to its turn, whatever bound one measures from |
| Kcoro.Worker.Slices | kernel/kcoro.c:118-161 | Over any number of yields the slices of run time follow each other without gap or overlap, and every work is charged exactly for its own: no time is charged twice and none is left out |
| Kcoro.Worker.TimeoutWakeup | kernel/kcoro.c:101-116 | Exactly the works whose timeout has passed leave the blocked tree, and no work is lost |
| Kcoro.Worker.Activate | kernel/kcoro.c:80-87 | A new work is ready with the time mvtime, which is no later than that of any work that was ready; when none was, it is the time last noted. The running work is left alone |
| Kcoro.Worker.Dispatch | kernel/kcoro.c:149-161 | The first ready work runs next, and the scheduler is resumed exactly when none is ready |
| Kcoro.Worker.Sleep | kernel/kcoro.c:208-213 | A sleeping work is in the blocked tree with its timeout and does not run on |
| Kcoro.Worker.Exit | kernel/kcoro.c:164-172 | An exiting work goes to the scheduler and is in neither tree |
| Kcoro.Worker.RunNext | kernel/kcoro.c:223-242 | The scheduler picks the first of the ready tree, or nothing when it is empty |
| Kcoro.Worker.Handle | kernel/kcoro.c:245-290 | A work handed back ready or exited is in neither tree when it is destroyed, and is destroyed once; with nothing ready the scheduler waits for the first timeout, or stops with -ETIMEDOUT when that never comes |
| Kcoro.Worker.Enqueue | kernel/kcoro.c:61-65 | A work goes behind all whose virtual time is not larger, so that equal ones keep their order, and mvtime is the least ready virtual time |
| Kcoro.Worker.Dequeue | kernel/kcoro.c:73-77 | The work taken from the ready tree comes before all that stay, and mvtime is the least of these |
| TreeIter.WalkIn | include/titer.h:57-133 | The inorder iteration gives the recursive inorder sequence and then NULL |
| TreeIter.InPrev | include/titer.h:109-133 | The inorder predecessor is the inverse of the successor |
| TreeIter.WalkPre | include/titer.h:135-169 | The preorder iteration gives the recursive preorder sequence |
| TreeIter.WalkPost | include/titer.h:171-202 | The postorder iteration gives the recursive postorder sequence |
| SegTree.ForEach | include/segtree.h:64-66 | First and next enumerate exactly the intervals that meet the given one, each once, in inorder |
| SegTree.Search | include/segtree.h:155-178 | The search below a node returns the first match there, or null when there is none in the rest of the tree: pruning by the maxima skips no match |
| SegTree.Next | include/segtree.h:197-220 | From any position the next match, none skipped |
| SegTree.NothingLeft | include/segtree.h:168-177 | Giving up below a node is right: the late end point that drew the search there belongs to an interval that starts too late, and so do all behind it |
| LList.Atomic | lib/llist.c:9-32 | For every interleaving of any number of producers with one consumer the calls return what a stack would on which whole batches are pushed in one step, and the list in memory is that stack |
| LList.NoneLost | lib/llist.c:9-32 | No node is lost or delivered twice, and llist_split returned true exactly as often as the list was filled |
| LList.EachCallPushes | lib/llist.c:9-17 | Each call of llist_split pushes once, and only the one under way has not |
| LList.HeldAsStarted | lib/llist.c:9-17 | What a producer holds, and so what it pushes, is the batch it was called with |
| LList.ConsumerAnswers | lib/llist.c:20-32 | The consumer ends a call only with a node, or with NULL for an empty list |
| LList.StepKeeps | lib/llist.c:9-32 | Each single access to shared memory keeps the invariant of the list, the batches in preparation and what the sides remember |
| LList.FailsOnlyBehindAnother | lib/llist.c:13-14 | When the cmpxchg of a producer fails, another call took effect since it read the head |
| Kfifo.Fifo.InCopy | lib/kfifo.c:12-46 | Copying in, folded at the end of the ring, overwrites nothing that is not read yet, whatever the consumer did since the room was measured |
| Kfifo.Fifo.OutCopy | lib/kfifo.c:12-37 | Copying out delivers exactly the next bytes written, whatever the producer did meanwhile |
| Kfifo.Fifo.InByte | lib/kfifo.c:25-26 | The same holds when the consumer steps in between any two bytes of the copy |
| Kfifo.Fifo.OutByte | lib/kfifo.c:25-26 | Each byte read is the next one written, when the producer steps in between any two bytes |
| Kfifo.Fifo.InFlat | lib/kfifo.c:129-139 | As many elements as there is room for are appended to what was written |
| Kfifo.Fifo.OutFlat | lib/kfifo.c:118-126 | What has been read is a prefix of what has been written, and grows by as many elements as there are |
| Kfifo.Fifo.PeekFlat | lib/kfifo.c:106-115 | A peek delivers the next bytes and leaves the indices alone |
| Kfifo.SlotWraps | lib/kfifo.c:18-18 | Masking an index that wrapped at 2^64 is the remainder of the true count |
| Kfifo.HoldsOn | lib/kfifo.c:25-26 | What is in the ring and not read yet survives a folded copy that fits beside it |
| ClockCloc.MultShift | lib/clockcloc.c:12-42 | If the products the function forms fit 64 bits, it leaves by its break exactly when shift 1 has room, and then multiplier and shift are the best: rounded to the nearest, no product up to the longest period overflows, and any larger shift has no such room |
| ClockCloc.KeepsTime | include/clockcloc.h:15-26 | Over any run of conversions with such a factor nothing overflows, whatever fraction is carried, and the total is off by at most half a unit of the multiplier for each cycle |
| ClockCloc.NoDrift | include/clockcloc.h:15-26 | The nanoseconds and the fraction summed over a run are those of one exact conversion of all cycles |
| ClockCloc.PartsAddUp | include/clockcloc.h:28-32 | However a period is cut, the parts add up to clock_delta_to_nsec of the whole |
| ClockCloc.CycleToNsec | include/clockcloc.h:15-26 | One conversion is a run of length one: nanoseconds and fraction recompose the product |
| ClockCloc.RunsOut | lib/clockcloc.c:31-41 | When the loop runs out it leaves the multiplier of shift 1 beside shift 0, twice the quotient |
| LruCache.LrcHead.Obtain | lib/lru-cache.c:79-125 | A hit returns the node of the tag, and a committed one moves to the using list; a miss recycles a free node, or else the one put longest ago, never one that is referred to; each refusal has its exact condition; lists, hash, unique tags and counters are kept, and it is said when the counter of used nodes departs from the lists |
| LruCache.Starve | lib/lru-cache.c:83-86 | A starving cache refuses and counts every request, whatever else is tried, until a last reference is given up |
| LruCache.LrcHead.Put | lib/lru-cache.c:128-137 | The last put moves the node to the front of the lru list, which stays in the order of the puts, and ends starvation; an earlier one only counts down |
| LruCache.LrcHead.Del | lib/lru-cache.c:140-150 | A node that is referred to is refused; another one on the lru or the using list is freed and leaves the hash |
| LruCache.LrcHead.Committed | lib/lru-cache.c:170-181 | All pending nodes become committed and are on the using list, the last one first, and pending is zero |
| LruCache.LrcHead.FindChange | lib/lru-cache.c:26-40 | The walk along one chain finds what a search through all nodes would find |
| LruCache.LrcHead.UnusedChange | lib/lru-cache.c:42-64 | The recycled node has no reference, and among the lru nodes none was put earlier |
| LruCache.LrcHead.constructor | lib/lru-cache.c:184-210 | A new cache has all nodes free and satisfies the invariant |
| LruCache.UsedExact | lib/lru-cache.c:104-121 | As long as it does not wrap, the counter of used nodes equals the changing and using nodes if and only if no committed node without reference was obtained from, or deleted on, the using list |
| LruCache.CountedTwice | lib/lru-cache.c:117-121 | A run on which one node is counted twice |
| Json.Parse | lib/json.c:91-251 | For every text the parser makes the nodes, parents, children, names, marks and texts of scalars that a plain machine with one list of open containers notes, hands back the root, and reports an overflow exactly when containers are nested too deep; all stack accesses are in range, and nspos - nnpos is 2 while waiting and in an escape and 1 otherwise |
| JsonDocument.RunDocument | lib/json.c:91-251 | A document with an array or object on top and at most 32 levels, written with any blanks where they are skipped, comes back with exactly its nodes, parents, names, kinds and texts; only a number or word that ends with the bracket of the root is not stored |
| JsonDocument.DeepDocument | lib/json.c:135-138 | An overflow is reported exactly for documents of more than 32 levels |
| JsonDocument.ParseDocument | lib/json.c:91-251 | The parser on a written document: its nodes hold what the document says |
| JsonMachine.TopsDiffer | lib/json.c:37-72 | The depths of the two stacks differ by two while waiting and in an escape, and by one otherwise |
| JsonMachine.StatesStep | lib/json.c:140-143 | The state stack holds the states of the open containers, and after a comma the innermost one is resumed |
| Json.NodesPush | lib/json.c:147-160 | The node stack holds the nodes of the open containers, also when an item gets a node |
| Json.NodesStay | lib/json.c:231-233 | The node to go on with is the innermost open container when an item or a container ends |
| JsonTable.TableIsDelta | lib/json.c:37-72 | The search through the table, fallback row included, is the transition function read state by state |
| JsonMachine.Moves | lib/json.c:128-138 | The moves of the two stacks are those of the plain machine, and the test of the state stack for an overflow never decides |
| JsonMachine.RunComplete | lib/json.c:176-230 | When a run ends, every node is an array, an object or a scalar with its text, except the item that is still being read |
| Json.LastNumberLost | lib/json.c:145-146 | In the text [1] the number is never stored, because the bracket that ends it leaves the loop first |
| Json.StrayBracket | lib/json.c:162-174 | In the text {[ the object is marked as an array too |
| Json.Writes | lib/json.c:162-230 | What the loop writes by the old and the new state is what the machine notes |

## Left out

- Btree.BtreeRoot.Remove: on an overrun the model stops where the source would go on with a slot behind the block; what is said of the tree then is no claim about the source.
- Btree.BtreeRoot.Last: on a tree emptied by removals the model stops where the source would read the slot in front of the first one.
- Btree.BtreeRoot.Next: the key in the caller's buffer has to be in the tree, or to be zero; where a cursor lands from another key is not modelled. The same holds of Prev.
- Btree.BtreeRoot.Update: a NULL value, which would make a slot look empty, is excluded.
- Btree.BtreeRoot.Destroy: a remove callback that refuses is excluded, because the cursor then goes on from a key that is no longer there.
- Btree: keys of more than one word, the find callback, odd `keynum`, and the reset when a level above the root is asked for (lib/btree.c:421-425), which no call reaches.
- ListSort.ListBsort: order for more than 2^32 nodes, where the counter of the passes wraps.
- Heap.HeapRoot.Insert: a heap of 2^32 - 1 nodes, where the counter wraps. The poison values of unlinked nodes are null.
- Glob.GlobMatch: what is behind the terminator of the text is not modelled, so an overrun ends the model. Characters are signed, as on x86.
- Rtc.TimeToTm: times whose day count does not fit an int, negative times, and the conversions back.
- Libmo.LookupId: a lookup whose probe never ends is excluded, as is a table of size 2, which divides by zero, and descriptors that wrap, behind which the source reads outside the image. libmo_load is left out.
- Libmo.Verify: the same exclusions, and the machine is little-endian.
- Libmo.Strcmp: two empty strings, behind the ends of which the source reads.
- Kcoro.Worker.Yield: virtual times are unbounded, so their wrap at 2^64 is not modelled; ticks are compared as numbers. Stacks and the context switch itself are left out.
- SegTree.ForEach: insertion and deletion with the red-black tree behind them; that the maxima are right is assumed of the tree.
- Kfifo.Fifo.InByte: memory is sequentially consistent; the record mode is left out.
- LruCache.LrcHead.Del: a node without reference on the using list of a starving cache, which would go on starving with a free node, and one on the changing list, which would leave the pending count too high.
- LruCache.LrcHead.Put: giving up the last reference to a node on the changing list, which would put a node on the lru list that is not committed.
- LruCache.LrcHead.Obtain: the free tag itself is no tag to ask for; lrc_set, which trusts its caller with the tag, and lrc_check_used are left out.
- Json.Parse: what the text of a number or word stands for, the growth of the text buffer, allocation failures, json_encode and json_release. Which characters count as blank is a parameter, and characters are signed.
- Allocation, printing, locking, the other containers, drivers and architecture code are not part of this model.
