# Verified models of the reference algorithms

This project models, in Dafny 4.11, the algorithms that the repository keeps as its references: the
native C data structures and generators under `benchmarks/native/`, and the Python generators and
mirrors under `tools/`. What the repository checks on samples (finite histories, random bit patterns,
test vectors) is proved here for every input, every run and every reachable state.

| part | files | what is proved |
|---|---|---|
| open addressing | `Probing`, `HashTable` | linear probing with backward-shift deletion refines a finite map, for every home function; no tombstones, every probe loop ends |
| LRU cache | `Threads`, `LruModel`, `Lru`, `LruHistory` | table, recency list, slot arrays and free chain together refine one oldest-first sequence over whole runs; every answer of a run is the one that the operations before it determine: which keys are held, with which values, until when, and in which order of last use |
| ordered map | `RedBlackTree`, `RedBlackPool` | insertion and deficient-subtree deletion keep the red-black shape and the sorted order; the in-place pool code computes exactly them, cells partitioned into the tree and the free list |
| slot arena and cursor | `DList`, `DListRuns`, `HandleLaws`, `DCursor`, `CursorLaws` | a generational doubly linked list whose answers by handle fix the order of its nodes; over runs of any length a removed node's handle is stale for ever, slot saturation included; the owning cursor refines the sequence model for every interleaving, and its walks, additions and changes obey the laws of a gap in a list |
| binary64 | `Binary64` | add, sub, mul, div and sqrt round the infinitely precise result of the numbers that the bit patterns stand for by roundTiesToEven; rounding is determined, monotone and the identity on doubles |
| Curve25519 field | `Terms`, `Limbs`, `FieldCode`, `FieldPowers`, `Emit`, `FieldEmit` | the generated straight-line code is exact below 2^48 and correct modulo 2^255 - 19; the term compiler preserves meaning and exactness and writes every operator subterm once |
| scalars and bytes | `Scalar`, `Pack` | the Horner step modulo the group order is exact, as terms and as emitted code (`FieldEmit`); byte and limb regrouping keep the value and invert each other |
| random | `Random`, `ChaCha`, `ChaChaRead` | bounded draws are exactly uniform, the shuffle is a bijection onto the permutations, the chunked generator is the C2SP stream, reads of any sizes are its consecutive little-endian bytes |
| SHA-256 streaming | `Sha256` | any split into updates gives the digest of the whole padded message, length and digest big-endian |

Code that changes state step by step is modelled by classes and methods over fields and arrays, each
method tied to a function of the old state; code made of expressions is modelled by functions and
lemmas. Hash functions, the ChaCha rounds, the SHA-256 compression and random sources are parameters:
the results hold for all of them. `Arith` and `Sequences` hold what several parts share.
`dafny verify dfyconfig.toml` checks the project.

Preconditions are those of the code. The C programs stop (abort or exit) when a pool or an arena can
grow no further; the methods that take a cell require that it need not (`CanAlloc`, `Room`). The hash
tables index with 32-bit shifts, defined for at most 31 bits, so setting a key of the hash table and
adding a new key to the cache require fewer than 2^30 entries (`MAX_ENTRIES`). Whole runs (`DListRuns.RunOps`, `DCursor.RunOps`,
`Lru.RunOps`) have no precondition on their length: they go on to their end or stop before the one
insertion that meets such a limit, and say so.

A key of the hash table must not be 2^32 - 1, because the stored key is one more and 0 marks an empty
bucket (`benchmarks/native/hash_table.c:88`); setting a key may grow the table even when it only
replaces a value. Adding a key whose entry has expired replaces that entry in place and counts an insertion, not
a removal (`benchmarks/native/lru.c:215-220`); the sequence model counts these replacements so that
its metrics balance.

## Model

| member | source | states |
|---|---|---|
| Probing.MaskedIsMod | benchmarks/native/hash_table.c:62-64 | the wrapping 32-bit index masked by a power of two is the index modulo the table size, negative differences included |
| Probing.ProbeEnd | benchmarks/native/hash_table.c:80-85 | a probe that meets an empty bucket has proved the key absent, one that meets the key has found its binding |
| Probing.PutFree | benchmarks/native/hash_table.c:61-67 | storing an absent key in the first free bucket of its probe is the map update and leaves no gap before any key |
| Probing.HoleMoves | benchmarks/native/hash_table.c:109-112 | moving an entry back over the hole keeps every binding and moves the hole, when its home is not cyclically after the hole |
| Probing.HoleCloses | benchmarks/native/hash_table.c:105-116 | when the scan meets an empty bucket the hole can be emptied: the table binds exactly the other keys, with no gap |
| HashTable.FibonacciIsHome | benchmarks/native/hash_table.c:50-52 | the multiplicative hash lands inside the table for 1 to 31 bits: an instance of the abstract home function |
| HashTable.PutRaw | benchmarks/native/hash_table.c:61-67 | the probe for a free bucket ends and the buckets represent the map with the new binding |
| HashTable.Table32.constructor | benchmarks/native/hash_table.c:54-59 | a new table represents the empty map |
| HashTable.Table32.Grow | benchmarks/native/hash_table.c:69-77 | rehashing into twice the buckets changes no binding |
| HashTable.Table32.Find | benchmarks/native/hash_table.c:80-85 | ends at the key's bucket with its value exactly when the map binds the key, else at an empty bucket |
| HashTable.Table32.Set | benchmarks/native/hash_table.c:87-93 | the map update, also when the table grows first (it may grow even when it only replaces) |
| HashTable.Table32.Get | benchmarks/native/hash_table.c:95-99 | found exactly when bound, with the bound value or the none mark |
| HashTable.ShiftBack | benchmarks/native/hash_table.c:102-116 | the backward-shift loop ends, and the buckets then bind exactly the other keys |
| HashTable.Table32.DelAt | benchmarks/native/hash_table.c:102-117 | backward-shift deletion removes exactly one key and counts it |
| HashTable.Table32.Pop | benchmarks/native/hash_table.c:119-126 | removes the key and returns its value exactly when it is bound |
| Threads.Unthread | benchmarks/native/lru.c:129-133 | relinking the two neighbours leaves prev and next threading the sequence without the slot |
| Threads.Thread | benchmarks/native/lru.c:135-140 | linking at the tail threads the sequence with the slot appended |
| LruModel.RunGood | benchmarks/native/lru.c:200-283 | over every run keys stay distinct, the size stays within the capacity, and inserts = size + evictions + removals + replacements since the last purge |
| LruModel.OrderIsLastUse | benchmarks/native/lru.c:142-146 | over every run the sequence is strictly ordered by last use (addition or tracked hit), so what is evicted is the least recently used |
| LruModel.StepShape | benchmarks/native/lru.c:212-294 | every operation keeps some old entries in their order, none of them the used one, and puts the used one last |
| LruHistory.DeadlineIs | benchmarks/native/lru.c:193-197 | an entry's deadline is 0 for ever, else the time of its addition and the lifetime then in force in milliseconds, rounded toward zero |
| LruHistory.HistoryTold | benchmarks/native/lru.c:200-294 | after every prefix of every run the sequence holds exactly the keys that the history holds, each with its last addition's value and deadline, in the order of their last uses |
| LruHistory.HeldFit | benchmarks/native/lru.c:223-281 | no more keys are held than the capacity in force |
| LruHistory.ReadAnswers | benchmarks/native/lru.c:242-257 | a read finds k exactly when k was added, has not gone since (by removal, eviction, purge, resize or expiry met), and its deadline is 0 or later than now; it answers the value of the last addition |
| LruHistory.RemoveAnswers | benchmarks/native/lru.c:259-263 | a removal finds k exactly when k is held, expired or not, and answers the value of the last addition |
| LruHistory.AddAnswers | benchmarks/native/lru.c:212-239 | an addition evicts exactly when its key is not held and as many keys are held as the capacity |
| LruHistory.CountAnswers | benchmarks/native/lru.c:265-284 | a purge answers how many keys were held; a resize to 0 is refused, any other answers how many are over the new capacity |
| LruHistory.KeysAnswers | benchmarks/native/lru.c:286-294 | a listing answers the keys still held, each once, in the order of their last uses |
| LruHistory.MetricsAnswer | benchmarks/native/lru.c:200-274 | hits and misses count the tracked reads by their found flag, insertions the additions, evictions the evicted and over-capacity entries, removals the keys that reads, removals and listings take out; a purge restarts all |
| Lru.Cache.constructor | benchmarks/native/lru.c:150-165 | the new cache is the empty sequence |
| Lru.Cache.UnlinkSlot | benchmarks/native/lru.c:129-133 | cuts the slot out of the threaded order and touches no slot outside the list |
| Lru.Cache.LinkTail | benchmarks/native/lru.c:135-140 | appends the slot to the threaded order |
| Lru.Cache.Touch | benchmarks/native/lru.c:142-146 | moves the slot to the newest place |
| Lru.Cache.TabFind | benchmarks/native/lru.c:76-83 | returns the slot of a present key and NIL for an absent one |
| Lru.Cache.TabGrow | benchmarks/native/lru.c:93-99 | refilling a table of twice the size along the recency list gives the same index |
| Lru.Cache.TabInsert | benchmarks/native/lru.c:102-105 | the index gains the key, with the load still at most one half |
| Lru.Cache.TabDelete | benchmarks/native/lru.c:108-125 | the index loses exactly the key |
| Lru.Cache.GrowSlots | benchmarks/native/lru.c:175-189 | all five slot arrays double and keep their contents |
| Lru.Cache.RemoveSlot | benchmarks/native/lru.c:200-209 | the entry leaves the sequence, its slot goes to the free chain through next, one metric counts it, the value is returned |
| Lru.Cache.TakeSlot | benchmarks/native/lru.c:224-230 | a released slot is reused before a fresh one; slots below fresh stay partitioned into list, chain and the taken one |
| Lru.Cache.ReplaceAt | benchmarks/native/lru.c:215-220 | a present key, expired or not, is overwritten in place and becomes the newest entry |
| Lru.Cache.Add | benchmarks/native/lru.c:212-239 | refines the sequence's addition, with the same evicted flag; only a new key that evicts nothing needs room in the table |
| Lru.Cache.Read | benchmarks/native/lru.c:242-257 | refines the sequence's read: value, found flag, metrics, touch, removal of an expired entry |
| Lru.Cache.Remove | benchmarks/native/lru.c:259-263 | refines the sequence's removal |
| Lru.Cache.Purge | benchmarks/native/lru.c:265-274 | refines the purge: everything goes, the count is returned, the metrics restart |
| Lru.Cache.Resize | benchmarks/native/lru.c:277-284 | refines the resize: capacity 0 refused, otherwise the oldest entries over the capacity go and are counted |
| Lru.Cache.Keys | benchmarks/native/lru.c:289-294 | refines the listing: the expired oldest prefix is removed first, the keys come oldest first |
| Lru.RunOps | benchmarks/native/lru.c:76-294 | for every sequence of operations all outputs and the final state are those of the sequence model, and conservation holds; the run ends early only before a new key for 2^30 entries under a larger capacity, which runs of at most 2^30 operations, or with capacities within 2^30, never meet |
| RedBlackTree.BalanceShape | benchmarks/native/redblack.h:87-135 | one rotation turns a subtree with one red-red edge below a black node into a valid one of the same black height |
| RedBlackTree.InsShape | benchmarks/native/redblack.h:168-187 | insertion keeps the black height and leaves at most a red-red edge at a red root |
| RedBlackTree.InsInorder | benchmarks/native/redblack.h:168-187 | the in-order entries after insertion are the sorted insertion of the entry |
| RedBlackTree.FixLeftShape | benchmarks/native/redblack.h:237-258 | repairing a deficient left child gives TD with the black height restored or UF with one level lost, a red root only from a red root; the missing-sibling branch is unreachable |
| RedBlackTree.FixRightShape | benchmarks/native/redblack.h:290-311 | the mirror image of the left repair |
| RedBlackTree.SplitMin | benchmarks/native/redblack.h:314-327 | what is left after taking the minimum obeys the deletion protocol |
| RedBlackTree.SplitMinInorder | benchmarks/native/redblack.h:314-327 | the entry taken is the first in order and the rest keep their order |
| RedBlackTree.DelHere | benchmarks/native/redblack.h:330-345 | deleting at a node obeys the deletion protocol |
| RedBlackTree.DelV | benchmarks/native/redblack.h:363-370 | deletion obeys the protocol: TD keeps the black height, UF loses exactly one level, no red-red edge, red result only from a red root |
| RedBlackTree.DelInorder | benchmarks/native/redblack.h:363-370 | the in-order entries after deletion are those before without the key |
| RedBlackTree.InsertShape | benchmarks/native/redblack.h:189-194 | insertion at the root gives a valid tree with a black root |
| RedBlackTree.RemoveShape | benchmarks/native/redblack.h:372-377 | removal at the root gives a valid tree with a black root |
| RedBlackTree.PutIsUpdate | benchmarks/native/redblack.h:168-187 | sorted insertion is the map update |
| RedBlackTree.TakeIsRemoval | benchmarks/native/redblack.h:363-370 | sorted removal is the map removal |
| RedBlackTree.HeightLogarithmic | benchmarks/native/redblack.h:168-194 | the height is at most twice the logarithm of the size plus one |
| RedBlackTree.SearchIsGet | benchmarks/native/redblack.h:381-393 | the search finds exactly what the sorted map binds |
| RedBlackTree.LowerIsFirst | benchmarks/native/redblack.h:412-430 | the lower bound is the first entry with key at least k |
| RedBlackTree.LeastAtLeast | benchmarks/native/redblack.h:412-430 | that entry is bound in the map, its key is at least k, and no bound key lies between; there is none exactly when all keys are less |
| RedBlackTree.RangeIsFold | benchmarks/native/redblack.h:433-438 | the pruned walk folds exactly the entries with lo <= key < hi, in key order |
| RedBlackTree.BetweenIs | benchmarks/native/redblack.h:433-438 | the entries in range are exactly the map's bindings with lo <= key < hi, each once, in key order |
| RedBlackTree.FoldInIs | benchmarks/native/redblack.h:433-438 | the fold with the range test is the fold of those entries, first to last |
| RedBlackPool.Pool.Walk | benchmarks/native/redblack.h:433-438 | the pruned recursion over the cells is the pruned walk of the stored tree |
| RedBlackPool.Pool.Range | benchmarks/native/redblack.h:433-438 | the walk over the pool folds exactly the map's bindings with lo <= key < hi, in key order, for every step function |
| RedBlackPool.Pool.constructor | benchmarks/native/redblack.h:46-55 | the new pool holds the empty map |
| RedBlackPool.Pool.Alloc | benchmarks/native/redblack.h:62-75 | the head of the free list, else the next unused cell, with empty links; every other cell unchanged |
| RedBlackPool.Pool.Release | benchmarks/native/redblack.h:77-80 | pushes the cell on the free list and changes no other |
| RedBlackPool.Pool.Balance | benchmarks/native/redblack.h:87-135 | the in-place rotations store the balanced tree, using the same cells |
| RedBlackPool.Pool.InsN | benchmarks/native/redblack.h:168-187 | the recursive insertion stores the inserted tree; the flag says whether the key was new; one cell is allocated exactly then |
| RedBlackPool.Pool.FixLeftBlack | benchmarks/native/redblack.h:207-234 | the three repairs under a black right sibling store the repaired tree and return its flag |
| RedBlackPool.Pool.FixLeft | benchmarks/native/redblack.h:237-258 | the left repair with its rotation under a red sibling stores the repaired tree |
| RedBlackPool.Pool.FixRightBlack | benchmarks/native/redblack.h:261-288 | the mirror image under a black left sibling |
| RedBlackPool.Pool.FixRight | benchmarks/native/redblack.h:290-311 | the mirror image of the left repair |
| RedBlackPool.Pool.SplitMin | benchmarks/native/redblack.h:314-327 | takes the minimum entry, releases its cell and stores what is left |
| RedBlackPool.Pool.DelHere | benchmarks/native/redblack.h:330-345 | replaces the entry by the minimum of the right subtree, or splices the node out, releasing one cell |
| RedBlackPool.Pool.DelV | benchmarks/native/redblack.h:363-370 | stores the tree without the key, returns the flag, whether the key was there and what it mapped to; releases at most one cell |
| RedBlackPool.Pool.Put | benchmarks/native/redblack.h:189-194 | the map update; the new flag exactly when the key was absent; cells stay partitioned into an unshared tree and the free list |
| RedBlackPool.Pool.Delete | benchmarks/native/redblack.h:372-377 | the map removal with the old value; same partition |
| RedBlackPool.Pool.Find | benchmarks/native/redblack.h:381-393 | the loop finds the key exactly when it is bound, with its value |
| RedBlackPool.Pool.LowerBound | benchmarks/native/redblack.h:412-430 | the loop returns the map's binding with the least key at least k, and none exactly when all keys are less |
| DList.Insert | benchmarks/native/dlist_arena.h:83-92 | the stores of an insertion thread the sequence with the slot in the gap |
| DList.Arena.constructor | benchmarks/native/dlist_arena.h:20-33 | an empty list with no buried handle |
| DList.Arena.Moved | benchmarks/native/dlist_iterator.h:9-11 | a moved structure holds the same list, cells and handles, and the one it came from is zeroed |
| DList.Arena.FindNode | benchmarks/native/dlist_arena.h:44-48 | finds exactly the ids in the list, and never NO_ID |
| DList.Arena.FindHandle | benchmarks/native/dlist_arena.h:50-54 | finds a handle exactly while its node is in the list; a buried handle never |
| DList.Arena.Grow | benchmarks/native/dlist_arena.h:35-42 | more cells, the same list and the same handles |
| DList.Arena.Take | benchmarks/native/dlist_arena.h:75-81 | the slot released last, at its generation, else the next one never used, at generation 0; list and handles unchanged |
| DList.Arena.Remove | benchmarks/native/dlist_arena.h:56-70 | the value leaves the sequence; exactly this handle stops resolving; the slot heads the free chain one generation later, or retires at generation 2^32 - 1 |
| DList.Arena.InsertBetween | benchmarks/native/dlist_arena.h:73-95 | the value enters the gap in the slot that is next to be used, under a handle that never named a node before; all others resolve as before |
| DListRuns.Apply | benchmarks/native/doubly_linked_list.c:16-88 | one operation by handle (insert, remove, get, set, neighbour) answers as the list of handles and values does; only an insertion needs room |
| DListRuns.RunOps | benchmarks/native/doubly_linked_list.c:16-88 | every run of any length answers so, to its end or to an insertion that meets a full arena, never within the first 2^31 - 1 operations |
| DListRuns.RunSound | benchmarks/native/dlist_arena.h:63-68 | over every such run the listed handles are distinct and were given out |
| DListRuns.StaleForever | benchmarks/native/dlist_arena.h:50-70 | after its node is removed a handle is stale in every later operation, whatever happens to its slot, saturation included |
| DListRuns.NeighbourListed | benchmarks/native/doubly_linked_list.c:76-88 | a neighbour query answers only with the handle of a node in the list at that time |
| HandleLaws.BesideIs | benchmarks/native/doubly_linked_list.c:30-45 | a node inserted after or before h lies there, between h and what was h's neighbour there, and reads as its value |
| HandleLaws.BesideKeeps | benchmarks/native/doubly_linked_list.c:30-45 | no other read and no other neighbour answer changes |
| HandleLaws.PushIs | benchmarks/native/doubly_linked_list.c:16-28 | a pushed node has no neighbour beyond it at its end, and what was the end is next to it |
| HandleLaws.PushKeeps | benchmarks/native/doubly_linked_list.c:16-28 | no other read and no other neighbour answer changes |
| HandleLaws.RemovalJoins | benchmarks/native/dlist_arena.h:56-62 | a removal makes the neighbours of its node neighbours of each other |
| HandleLaws.RemovalKeeps | benchmarks/native/dlist_arena.h:56-70 | no other neighbour answer changes |
| HandleLaws.RemovalReadsOn | benchmarks/native/dlist_arena.h:56-70 | the other handles read as before |
| HandleLaws.WriteIs | benchmarks/native/doubly_linked_list.c:68-74 | a write changes what its handle reads, and nothing else |
| HandleLaws.Mutual | benchmarks/native/doubly_linked_list.c:76-88 | neighbours are mutual |
| DCursor.Cursor.First | benchmarks/native/dlist_iterator.h:9 | the cursor before the first element owns the list; the structure it was moved from is zeroed |
| DCursor.Cursor.Last | benchmarks/native/dlist_iterator.h:10 | the cursor behind the last element, likewise |
| DCursor.Cursor.Finish | benchmarks/native/dlist_iterator.h:11 | the list moves out with all its elements; the cursor is zeroed |
| DCursor.Cursor.Next | benchmarks/native/dlist_iterator.h:14 | refines the model's step forward, the end status included |
| DCursor.Cursor.Previous | benchmarks/native/dlist_iterator.h:15 | refines the model's step back |
| DCursor.Cursor.Set | benchmarks/native/dlist_iterator.h:16 | replaces the element returned last, or reports that there is none |
| DCursor.Cursor.Add | benchmarks/native/dlist_iterator.h:17 | inserts at the gap and steps over the new element |
| DCursor.Cursor.Remove | benchmarks/native/dlist_iterator.h:18 | removes the element returned last, in either direction, and keeps the gap in place |
| DCursor.RunOps | tools/check_iterators.py:6-27 | for every interleaving of the operations, of any length, all outputs are the sequence model's, to its end or to an addition that meets a full arena |
| CursorLaws.WalkFirst | tools/check_iterators.py:9-12 | from the beginning, steps forward answer the elements in order and then the end |
| CursorLaws.WalkLast | tools/check_iterators.py:9-15 | from the end, steps back answer them in reverse and then the end |
| CursorLaws.AddsInOrder | tools/check_iterators.py:16 | elements added one after the other come out in that order, between those before the gap and those behind it |
| CursorLaws.StepsAfterAdd | benchmarks/native/dlist_iterator.h:17 | after an addition a step back answers the element added, a step forward what it would have answered without it |
| CursorLaws.BackAndForth | benchmarks/native/dlist_iterator.h:14-15 | a step back after a step forward answers the same element, and conversely |
| CursorLaws.QuestionsAnswered | benchmarks/native/dlist_iterator.h:12-13 | they answer exactly whether the next step in their direction has an element |
| CursorLaws.SetAfterNext | benchmarks/native/dlist_iterator.h:16 | a step back answers the value set, a step forward what it would have answered without it |
| CursorLaws.SetAfterPrevious | benchmarks/native/dlist_iterator.h:16 | the same with the directions exchanged |
| CursorLaws.SetInPlaceNext | benchmarks/native/dlist_iterator.h:16 | the list changes in the place of the element answered last and nowhere else |
| CursorLaws.SetInPlacePrevious | benchmarks/native/dlist_iterator.h:16 | the same after a step back |
| CursorLaws.RemoveAfterNext | benchmarks/native/dlist_iterator.h:18 | the next steps answer what they would have answered around the element removed |
| CursorLaws.RemoveAfterPrevious | benchmarks/native/dlist_iterator.h:18 | the same after a step back |
| CursorLaws.RemoveInPlaceNext | benchmarks/native/dlist_iterator.h:18 | the list loses the element answered last and nothing else |
| CursorLaws.RemoveInPlacePrevious | benchmarks/native/dlist_iterator.h:18 | the same after a step back |
| CursorLaws.NothingCurrent | benchmarks/native/dlist_iterator.h:16-18 | there is no element to change after a restart, an addition or a removal; steps and changes that fail change nothing |
| Binary64.Fields | tools/check_f64_spec.py:30-36 | every 64-bit pattern is the encoding of its own sign, exponent and fraction |
| Binary64.EncodeFields | tools/check_f64_spec.py:30-36 | encoding keeps sign, exponent and fraction |
| Binary64.EncodeBits | tools/check_f64_spec.py:35-39 | sign, exponent and fraction fill the bits from 63 down; infinities, zeros and the quiet NaN are the standard's patterns |
| Binary64.EncodedValue | tools/check_f64_spec.py:45-49 | a normal double stands for 2^(ef - 1023) (1 + f / 2^52), a subnormal one for f / 2^1074 |
| Binary64.OneIsOne | tools/check_f64_spec.py:45-49 | 0x3FF0000000000000 stands for 1 and the pattern 1 for 2^-1074 |
| Binary64.RneSticky | tools/check_f64_spec.py:57-61 | rounding away two or more bits with a sticky last bit rounds every value between the neighbouring significands to nearest |
| Binary64.PackValue | tools/check_f64_spec.py:63-65 | packing keeps value, sign and parity through subnormals and the carry into 2^53, and overflows exactly from 2^1024 on |
| Binary64.RoundCorrect | tools/check_f64_spec.py:67-72 | for every significand and exponent the rounding is roundTiesToEven of IEEE 754-2019 section 4.3.1 of every value the significand stands for: nearest among all doubles, ties to even, infinity exactly from the overflow threshold on |
| Binary64.ThresholdIs | tools/check_f64_spec.py:63 | the overflow threshold is 2^1024 less half a unit in the last place |
| Binary64.RoundBetween | tools/check_f64_spec.py:55-61 | between neighbouring doubles a value rounds to the nearer one, from halfway to the even pattern |
| Binary64.RoundBeyond | tools/check_f64_spec.py:63-65 | beyond the largest double it rounds to that one below the threshold and to infinity from there on |
| Binary64.RoundIdentity | tools/check_f64_spec.py:48-49 | rounding a finite double's own sign, significand and exponent gives that double |
| Binary64.RoundsToUnique | tools/check_f64_spec.py:67-72 | roundTiesToEven determines its result |
| Binary64.RoundsToMonotone | tools/check_f64_spec.py:67-72 | a larger value never rounds to a smaller double, across binades and up to infinity |
| Binary64.AddCorrect | tools/check_f64_spec.py:77-93 | addition rounds the exact sum; an exact zero sum is +0 unless both operands are negative |
| Binary64.SubCorrect | tools/check_f64_spec.py:94 | subtraction, the sum with the negated operand, rounds the exact difference |
| Binary64.AddCommutes | tools/check_f64_spec.py:77-93 | addition commutes bit for bit, NaNs and infinities included |
| Binary64.MulCorrect | tools/check_f64_spec.py:96-100 | multiplication rounds the exact product, and its exponent subtraction never saturates |
| Binary64.DivCorrect | tools/check_f64_spec.py:104-114 | division rounds the exact quotient: truncated at 200 guard bits with a sticky bit, nothing saturating |
| Binary64.SqrtRounds | tools/check_f64_spec.py:118-131 | for every non-negative finite operand the square root rounds the exact real root, given by the integers around it: the scaled operand's integer root where it is a square, else every real up to the next integer |
| Binary64.SqrtCorrect | tools/check_f64_spec.py:118-131 | so it rounds every real whose square is the operand |
| Binary64.UnitOfProducts | tools/check_f64_spec.py:96-131 | 1.0 is the unit of multiplication and division, bit for bit, and its own square root |
| Binary64.NegBits | tools/check_f64_spec.py:94 | negation flips bit 63 of every pattern |
| Binary64.SubSpecial | tools/check_f64_spec.py:94 | over all operands, exactly which differences are not numbers, and the differences with an infinity |
| Binary64.AddSpecial | tools/check_f64_spec.py:77-93 | over all operands, exactly which sums are not numbers, all of them the one quiet pattern; the sums with an infinity |
| Binary64.MulSpecial | tools/check_f64_spec.py:96-100 | the same for products |
| Binary64.DivSpecial | tools/check_f64_spec.py:104-114 | the same for quotients, and those with an infinite operand or a zero divisor |
| Binary64.SqrtSpecial | tools/check_f64_spec.py:126-131 | the same for square roots; infinity and the zeros are their own roots |
| Binary64.OrdCorrect | tools/check_f64_spec.py:136-147 | the comparison orders all doubles but NaNs as the extended reals they stand for, both zeros equal |
| Terms.AndMask | tools/gen_fe.py:66 | masking with 2^k - 1 is the remainder modulo 2^k |
| Terms.AndBit | tools/gen_fe.py:66 | bit by bit it is the conjunction |
| Limbs.LimbsAre | tools/gen_fe.py:75-78 | limb i of an element counts 2^(17 i) |
| Limbs.SameIs | tools/gen_fe.py:94-95 | the congruence of the results is that modulo 2^255 - 19 |
| Limbs.MulValue | tools/gen_fe.py:75-78 | the schoolbook product of two limb lists has the product of their values |
| Limbs.FoldValue | tools/gen_fe.py:94-95 | folding the limbs from the 15th on by 19 keeps the value modulo 2^255 - 19 |
| Limbs.PassValue | tools/gen_fe.py:126-129 | one chained carry pass brings limbs below 2^47 back below 2^19 and keeps the value modulo p |
| Limbs.ParallelValue | tools/gen_fe.py:139-141 | moving every carry at once keeps the value modulo p and bounds the limbs |
| Limbs.EightPValue | tools/gen_fe.py:102-104 | the constant limbs added before a subtraction are 8 p |
| FieldCode.PmDenotes | tools/gen_fe.py:64-68 | the split product on the 32-bit multiplier is the product: neither half wraps |
| FieldCode.ConvPDenotes | tools/gen_fe.py:75-78 | the generated convolution is the polynomial product, every subterm exact and below 2^48 |
| FieldCode.SqPDenotes | tools/gen_fe.py:85-91 | the square with each cross product once has the columns of the full product |
| FieldCode.PassDenotes | tools/gen_fe.py:119-129 | the generated carry pass is exact on limbs below 2^47 |
| FieldCode.AddCodeCorrect | tools/gen_fe.py:391-392 | addition: every subterm below 2^48, output limbs below 2^19, the sum modulo p |
| FieldCode.SubCodeCorrect | tools/gen_fe.py:393-394 | subtraction: the same; 8 p is added before the limbs are subtracted, so the result is the difference modulo p |
| FieldCode.MulCodeCorrect | tools/gen_fe.py:395-396 | multiplication: the same, with the product modulo p |
| FieldCode.SqCodeCorrect | tools/gen_fe.py:397-398 | squaring: limb for limb the product of the element with itself |
| FieldCode.MulSmallCodeCorrect | tools/gen_fe.py:400-401 | multiplication by k < 2^17: the same bounds, the product modulo p |
| FieldPowers.P250IsPow | tools/gen_fe.py:322-334 | the addition chain computes the power 2^250 - 1 |
| FieldPowers.InvIsPow | tools/gen_fe.py:344-355 | inversion raises to p - 2 modulo p |
| FieldPowers.PowP58IsPow | tools/gen_fe.py:357-359 | the square-root exponent is (p - 5) / 8 |
| Emit.Emitter.Count | tools/gen_fe.py:158-164 | the counts are those of references, the arguments counted at a term's first reference only |
| Emit.TallyReaches | tools/gen_fe.py:158-164 | counting reaches exactly the subterms |
| Emit.CountsAreReferences | tools/gen_fe.py:158-164 | the count of a term is how often the outputs and their distinct subterms refer to it |
| Emit.Emitter.Visit | tools/gen_fe.py:167-177 | a visit keeps the lines in binding order and writes out once every operator term it reaches first |
| Emit.Emitter.Emit | tools/gen_fe.py:154-178 | lines for exactly the operator subterms referenced more than once; every distinct operator subterm written out exactly once |
| Emit.NamesOnceBeforeUse | tools/gen_fe.py:172-175 | names are bound once, and a line uses only the outputs' variables and earlier names |
| Emit.EmittedMeaning | tools/gen_fe.py:154-178 | for every interpretation of variables, literals and operators, the results evaluated after the lines are the outputs' values |
| FieldEmit.EmittedExact | tools/gen_fe.py:154-205 | sharing keeps exactness: every operator of every let line and result, run on the values of the lines before it, neither wraps nor truncates, and every value stays below 2^48 |
| FieldEmit.EmittedAdd | tools/gen_fe.py:190-205 | the emitted addition, run on any limbs below 2^19, is exact line by line and returns such limbs of the sum modulo p |
| FieldEmit.EmittedSub | tools/gen_fe.py:190-205 | the emitted subtraction does so for the difference |
| FieldEmit.EmittedMul | tools/gen_fe.py:190-205 | the emitted multiplication does so for the product |
| FieldEmit.EmittedSq | tools/gen_fe.py:190-205 | the emitted square does so, limb for limb as the product |
| FieldEmit.EmittedMulSmall | tools/gen_fe.py:190-205 | the emitted product by k < 2^17 does so |
| FieldEmit.EmittedStep | tools/gen_scalar.py:61-68 | the emitted scalar step, run on L, a scalar below it and a 17-bit digit, is exact line by line and returns (d + 2^17 a) mod L |
| Scalar.SubbOrder | tools/gen_scalar.py:24-29 | the borrow chain computes the difference and its borrow tells the order |
| Scalar.OrderLiteral | tools/check_curve25519.py:23 | the modulus is the order of the base point |
| Scalar.EstimateBounds | tools/gen_scalar.py:37-38 | the estimate from the top bits, less one, leaves a remainder in [0, 2 L) |
| Scalar.StepValue | tools/gen_scalar.py:36-42 | the step on limbs is (d + 2^17 a) mod L for every a < L and 17-bit digit d |
| Scalar.StepCorrect | tools/gen_scalar.py:36-42 | the generated step is exact, every subterm below 2^48, and returns those limbs |
| Pack.PkValue | tools/gen_pack.py:41-53 | the limbs hold the buffer and the bytes above it, each limb below 2^17, and their number depends on the length only |
| Pack.UpValue | tools/gen_pack.py:62-75 | the bytes hold the buffer and the limbs above it, each byte below 256, and their number depends on the length only |
| Pack.DigitsAre | tools/gen_pack.py:41-75 | byte i of a value counts 2^(8 i), limb i counts 2^(17 i) |
| Pack.Pkn | tools/gen_pack.py:255-266 | n bytes above nb bits take one limb more than the whole 17-bit groups |
| Pack.Upn | tools/gen_pack.py:427-438 | n limbs above nb bits take one byte more than the whole bytes |
| Pack.UpAfterPk | tools/gen_pack.py:41-75 | bytes packed and written back are those bytes, then zeros |
| Pack.PkAfterUp | tools/gen_pack.py:41-75 | limbs written and packed again are those limbs, then zeros |
| Random.UnbiasedDraw | benchmarks/native/gorand.h:130-134 | for every number w of words, bound n and k < n, exactly floor(w / n) words are accepted and yield k |
| Random.DrawnIs | benchmarks/native/gorand.h:127-137 | with x the last word taken x n = k 2^64 + l and l is at least 2^64 mod n; for every word taken before it is less |
| Random.PowerOfTwo | benchmarks/native/gorand.h:129 | the mask test picks out exactly the powers of two |
| Random.UnbiasedMask | benchmarks/native/gorand.h:129 | masking yields every k below a power of two from equally many words |
| Random.Uint64n | benchmarks/native/gorand.h:127-137 | the loop with its lazy threshold test returns the first draw that the threshold accepts, below n; a power of two takes one masked word, and n = 0 the word itself |
| Random.ExchangedMultiset | benchmarks/native/gorand.h:145-150 | whatever is drawn, the shuffle permutes |
| Random.ExchangedIs | benchmarks/native/gorand.h:145-150 | one more choice j exchanges the entry at the next lower position with the one at j |
| Random.ShuffleBijection | benchmarks/native/gorand.h:145-150 | on distinct items every permutation arises from exactly one choice sequence |
| Random.Shuffle | benchmarks/native/gorand.h:145-150 | the in-place loop performs the exchanges of the choices it draws, the highest position first, from bounds i + 1 |
| ChaCha.LaneIsBlock | tools/check_random.py:173-192 | not adding the constants and the counter back is the block function with them taken off again |
| ChaCha.ConstantsSpell | tools/check_random.py:170 | the constants are the little-endian words of "expand 32-byte k" |
| ChaCha.BlockIs | tools/check_random.py:173-192 | a block's words are the rounds' own, with the key added to words 4 to 11 |
| ChaCha.Interleaved | tools/check_random.py:193-198 | word r of block l of a group of four comes out in place 4 r + l |
| ChaCha.StreamIs | tools/check_random.py:193-213 | output w of iteration t is the pair 2 w, 2 w + 1 of its words, the low one first; the eight words after the 124 pairs are the next key |
| ChaCha.WordBytes | benchmarks/native/gorand.h:93-97 | the bytes of a word are below 256 and have its value, least significant first |
| ChaCha.ChunkIsIteration | tools/check_random.py:184-199 | the interleaved buffer of four blocks is the matching stretch of the iteration |
| ChaCha.ReseedKey | tools/check_random.py:199-213 | the four words kept from the last buffer are the next key |
| ChaCha.ChaCha8.Block | benchmarks/native/gorand.h:27-49 | fills the buffer with the chunk of this seed and counter |
| ChaCha.ChaCha8.constructor | benchmarks/native/gorand.h:51-59 | the little-endian seed bytes give the first key, at position 0 |
| ChaCha.ChaCha8.Refill | benchmarks/native/gorand.h:61-70 | the next chunk or, after the fourth, the next iteration, at the same position |
| ChaCha.ChaCha8.Uint64 | benchmarks/native/gorand.h:73-78 | every call returns the next word of the C2SP stream |
| ChaChaRead.Reader.Read | benchmarks/native/gorand.h:85-101 | returns the next bytes of the stream, whatever was read before; eight of them from a word's beginning on have its value, least significant first |
| ChaChaRead.WordRead | tools/check_random.py:262-271 | the eight stream bytes of a word are its little-endian bytes |
| ChaChaRead.Reader.ReadChunks | tools/check_random.py:265-271 | reads of any sizes together are one read of the sum, with the same byte order |
| Sha256.Context.Update | benchmarks/native/sha256_ctx.h:46-56 | the context covers the old message followed by the new bytes |
| Sha256.Context.Final | benchmarks/native/sha256_ctx.h:58-68 | the digest of everything fed in, padded with its length in bits modulo 2^64 |
| Sha256.PaddedIs | benchmarks/native/sha256_ctx.h:58-63 | the padded message is the message, the byte 128, zeros, and the length in bits modulo 2^64 in the last eight bytes, most significant first, in the fewest whole blocks |
| Sha256.DigestByte | benchmarks/native/sha256_ctx.h:64-67 | byte 4 i + j of the digest is byte j, most significant first, of chaining word i |
| Sha256.BigEndianByte | benchmarks/native/sha256_ctx.h:62-67 | byte j of n is x / 256^(n - 1 - j) modulo 256 |
| Sha256.InitialWords | benchmarks/native/sha256_ctx.h:41-44 | the initial words are the first 32 bits of the fractional parts of the square roots of the first eight primes |
| Sha256.HashParts | benchmarks/native/sha256_ctx.h:46-72 | any split of a message gives the digest of the whole |
| Sha256.OneShot | benchmarks/native/sha256_ctx.h:70-72 | the one-shot digest is the case of one part |
| Sha256.PaddedInjective | benchmarks/native/sha256_ctx.h:58-63 | messages short enough for the length field are determined by their padded form |

## Left out

- Random.Uint64n: requires a position from which some word is accepted, because the loop of the source need not end on a source that rejects for ever.
- Random.Shuffle: requires this from the source's position on, of the bounds up to the length that are no powers of two.
- FieldPowers.InvIsPow: states the power; that it is the inverse needs the primality of 2^255 - 19, which is not proved.
- Emit.EmittedMeaning: models shown code as terms in which names are variables; the printed text (`show` and the line layout of `flat`) is not modelled.
- DList.Arena.Moved: a null pointer to the cells is modelled as an array without cells.
- Lru.Cache.Add: counts metrics with unbounded integers; the 64-bit wrap of the counters is not modelled.
- Allocation failure and the abort or exit paths of the C programs: preconditions instead.
- The rounds of ChaCha8 and the compression function of SHA-256: any function, because the streams do not depend on what they compute.
- HMAC and HKDF (`benchmarks/native/sha256_ctx.h:74-98`), Float64 and the PCG generator (`benchmarks/native/gorand.h:103-124, 140-142`): short straight-line code on top of what is proved.
- `select` of the field and `gen_pick.py`: one masked sum, the same as the selection inside the scalar step.
- `rb_min`, `rb_max`, `rb_count` and `rb_entries`: single walks that would only add easy members.
- Benchmark drivers, timing, checksums, report rendering and the toolchain scripts.
- The Bend sources and the third-party cryptographic libraries are not part of this model.
- Elliptic-curve group laws and the freezing of field elements to canonical form.
