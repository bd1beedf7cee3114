# Verified models of BMBT's core algorithms

BMBT runs a cut-down QEMU without an operating system below it, so it brings its
own copies of the data structures that QEMU takes from GLib and from its
headers. This project models the ones that are hard to get right and proves
what they are for:

* **Balanced tree** (`GTreeShape`, `GTreeHeap`, `GTreeOrder`, `GTreeSpine`,
  `GTreeWalk`, `GTree`, `GTreeRuns`): the threaded AVL tree of `glib/gtree.c`. Node objects
  with `left`, `right`, `balance`, `leftChild` and `rightChild` are rewritten in
  place, by the non-recursive loops over `path[40]`. A ghost tree (`Shape`) says
  what the heap stands for. A tree with a hole (`Context`) says what the `path`
  array stands for. `GTreeRuns` runs whole sequences of operations against a map
  and accounts for every key and value that is handed over.
  `TranslationBlocks` shows that the comparison function the
  translator uses with this tree is one the tree can work with.
* **Multiword arithmetic** (`Words`, `SoftFloatMul`, `SoftFloatDiv`,
  `SoftFloatJam`, `SoftFloatSqrt`): `include/fpu/softfloat-macros.h`, with 64-bit words as
  integers and every wrap-around written out.
* **Queues** (`TailQueue`, `LockFreeList`): `include/qemu/queue.h`, the circular
  tail queue on link objects with a history of what was done to it, and the
  lock-free list as a transition system over
  any number of threads.
* **Strings** (`GString`, `Utf8`): `glib/gstring.c`, a growing buffer in an
  `array`, insertion of a part of the string into itself, UTF-8.
* **Dirty pages** (`Bitmap`, `DirtyMemory`): bitmaps in word arrays, and the
  blocks of pages above them, which behave like one flat bitmap.
* **Interrupts** (`Interrupts`): the global lock shared by the main flow and the
  timer signal, as instructions that a signal can interrupt anywhere.

Conventions. Keys and values of the tree are integers that stand for pointers;
the comparison and destroy functions are parameters, and calls to the destroy
functions are recorded in order. `Free` overwrites a node with arbitrary values,
so nothing that is proved can depend on a value read from a freed node. A C
function is often split into several methods; each row below cites the lines its
member covers.
Preconditions on numbers of nodes, buffer sizes and addresses are the limits
within which the C code does not overrun its fixed-size path, abort in its
allocator, or overflow.

What the tree demands of a comparison function is less than a total order
(`Searchable` and `Mirrored` in `GTreeOrder`), because the translator's function
is none; for a total preorder both follow (`PreorderFits`).

Where the code differs from what one might expect, with the exact condition:

* `QTAILQ_REMOVE_SEVERAL` leaves the back links of all the elements it removes.
  `QTAILQ_IN_USE` is right about an element exactly when `QTAILQ_REMOVE_SEVERAL`
  was not the last operation to take it out (`History.InUse`).
* `cpu_physical_memory_get_dirty` and its relatives look at one page too many
  exactly for an empty range whose start is not aligned (`PagesExact`).
* `setup_dirty_memory` divides the size of the memory in bytes by a block size in
  pages, so it allocates blocks for 4096 times as many pages as there are
  (`Tracker.constructor`).
* `g_string_insert_len` inserts what a source inside the string points at,
  whatever the unused part of the buffer holds, exactly when the source ends
  before the terminator (`FetchesString`). With the terminator itself as source it
  inserts the byte behind it (`TerminatorAsSource`). A source that reaches behind
  the string is read past the end of the allocation exactly when the string still
  fits, so that the buffer is not enlarged, but `offset + 2 * n` exceeds its size
  (`FetchesInside`).
* `g_string_insert_unichar` writes bytes that are legal by section 4 of RFC 3629
  exactly for the Unicode scalar values (`LegalIff`). A surrogate is written, too
  (`SurrogateWritten`). Larger values get the longer forms of section 2 of RFC 2279
  (`MatchesRfc2279`).
* Rotations of arbitrary trees store true balances exactly for the pairs of
  balances that `StoredLeftExact` and `StoredRightExact` name; on two spines of
  128 nodes below one node they do not (`LeftRotationOverflows`,
  `RightRotationOverflows`). No call in `glib/gtree.c` reaches such a tree, because
  `g_tree_node_balance` only rotates where the balances are within two
  (`BalancingFits`).
* `QSLIST_MOVE_ATOMIC` loses nothing exactly when the list it moves into is empty
  (`MoveLoses`); `SecondMoveLoses` is a run in which it loses an element.
* `tb_tc_cmp` answers consistently for both orders of its arguments exactly for
  two blocks, for a program counter and the block that holds it, and for two
  different program counters (`MirrorIff`).

`dafny verify dfyconfig.toml` checks the whole project.

## Model

| member | source | states |
|---|---|---|
| GTreeShape.RotateLeftExact | glib/gtree.c:49-82 | For a tree of any heights whose stored balances are true, both balances that the left rotation rewrites are the true height differences |
| GTreeShape.RotateRightExact | glib/gtree.c:84-117 | The same for the right rotation |
| GTreeShape.RotationsInverse | glib/gtree.c:49-117 | On trees with true balances each rotation undoes the other, balances included |
| GTreeShape.RotateLeftEntries | glib/gtree.c:49-82 | The left rotation keeps the in-order sequence and the set of nodes |
| GTreeShape.RotateRightEntries | glib/gtree.c:84-117 | The right rotation keeps the in-order sequence and the set of nodes |
| GTreeShape.RebalanceAvl | glib/gtree.c:119-131 | A node that is off by at most two above AVL subtrees becomes an AVL tree; the height drops by one exactly when the new balance is zero |
| GTreeShape.RebalanceEntries | glib/gtree.c:119-131 | Rebalancing keeps the in-order sequence and the nodes |
| GTreeShape.GrownStep | glib/gtree.c:226-254 | One turn of the loop after an insertion: stopping on a zero balance or at the root leaves the whole tree balanced with true balances, otherwise the loop's condition holds one level up |
| GTreeShape.ShrunkStep | glib/gtree.c:826-853 | One turn of the loop after a removal: stopping on a non-zero balance or at the root leaves the whole tree balanced, otherwise the loop's condition holds one level up |
| GTreeShape.PlugAvl | glib/gtree.c:226-254 | A subtree makes the whole tree balanced exactly when it is balanced itself and has the height its ancestors' balances record |
| GTreeShape.AvlSize | glib/gtree.c:9 | An AVL tree of height h has at least Fib(h+2)-1 nodes |
| GTreeShape.Sparsest | glib/gtree.c:9 | That bound is reached, for every height and any sequence of that many entries |
| GTreeShape.PathBound | glib/gtree.c:9 | Below 433,494,436 nodes the height is at most 40, and NULL and the ancestors of every node fit into the 40 slots |
| GTreeShape.PathBoundSharp | glib/gtree.c:9 | Any 433,494,436 entries with nodes of their own are the content of a balanced tree with a node for which the path would need 41 slots |
| GTreeHeap.RepPlug | glib/gtree.c:226-254 | The heap represents a whole tree exactly when it represents a subtree, with threads to its in-order neighbours, and the rest of the tree around it |
| GTreeHeap.RotateLeftNode | glib/gtree.c:49-82 | The in-place left rotation turns the representation of a tree into that of the rotated tree, threads included, with the new balances as gint8 stores them |
| GTreeHeap.RotateRightNode | glib/gtree.c:84-117 | The same for the right rotation |
| GTreeHeap.StoredLeftExact | glib/gtree.c:64-79 | After a left rotation of a tree with true balances, of any heights, the stored balances are true exactly for the pairs of balances, of the node and its right child, that FitsLeft names |
| GTreeHeap.StoredRightExact | glib/gtree.c:99-114 | The same for the right rotation and FitsRight |
| GTreeHeap.LeftRotationOverflows | glib/gtree.c:64-79 | Any 257 entries with nodes of their own form a tree with true balances, all of which fit, on which the left rotation stores 127 for -129 |
| GTreeHeap.RightRotationOverflows | glib/gtree.c:99-114 | The same for the right rotation, which stores -127 for 129 |
| GTreeHeap.BalancingFits | glib/gtree.c:119-131 | The rotations of g_tree_node_balance never come near these limits |
| GTreeHeap.BalanceNode | glib/gtree.c:119-131 | In place, single and double rotations give the representation of the rebalanced tree and its new root node |
| GTreeHeap.AttachLeft | glib/gtree.c:192-200 | The new node is linked as left child with threads to both neighbours, and the parent's balance counts it |
| GTreeHeap.AttachRight | glib/gtree.c:210-218 | The same on the right |
| GTreeHeap.Unhook | glib/gtree.c:737-745 | Removing a leaf turns the parent's link into the right thread |
| GTreeHeap.Tilt | glib/gtree.c:248-253 | Adjusting the parent's balance is the step from a subtree to its parent |
| GTreeHeap.NextNode | glib/gtree.c:402-414 | The thread, or the leftmost node of the right subtree, is the first node after this one |
| GTreeHeap.PreviousNode | glib/gtree.c:377-389 | The thread, or the rightmost node of the left subtree, is the last node before this one |
| GTreeOrder.PreorderFits | glib/gtree.c:634-650 | A comparison function that is a total preorder meets everything the tree demands, for every key |
| GTreeOrder.FoundIff | glib/gtree.c:460-484 | A key is found exactly when some stored key compares equal |
| GTreeOrder.InsertedSorted | glib/gtree.c:148-257 | Insertion keeps the keys strictly ascending, also when a stored key is replaced by an equal one |
| GTreeOrder.RemovedSorted | glib/gtree.c:690-867 | Removal keeps the keys strictly ascending |
| GTreeOrder.InsertedLookup | glib/gtree.c:148-257 | After an insertion every key finds what it found before, except keys equal to the new one, which find the new value (in the old node, with the old key unless replaced) |
| GTreeOrder.RemovedLookup | glib/gtree.c:690-867 | After a removal every key finds what it found before, except equal keys, which find nothing |
| GTreeOrder.LookupYields | glib/gtree.c:460-484 | The binary search result is the only entry that compares equal |
| GTreeOrder.LookupIs | glib/gtree.c:460-484 | The search finds something exactly when some stored key compares equal, and then an entry that does |
| GTreeOrder.InsertedIs | glib/gtree.c:148-257 | Without an equal key one entry is added and all others keep their order; with one, the value of that entry changes in place, and its key only when replacing |
| GTreeOrder.RemovedIs | glib/gtree.c:690-867 | With an equal key exactly that entry goes and all others keep their order; without one nothing changes |
| GTreeSpine.FindSuccessor | glib/gtree.c:779-792 | The descent to the successor ends at the first node of the right subtree, records exactly the nodes passed, and stays inside the path array |
| GTreeSpine.DetachNext | glib/gtree.c:794-805 | The successor is taken out of its place, in both cases (own child of the node or deeper), its right subtree and threads kept |
| GTreeSpine.RedirectPrev | glib/gtree.c:807-810 | The predecessor's thread points at the successor afterwards and nothing else in the left subtree changes |
| GTreeSpine.ReplaceBySuccessor | glib/gtree.c:776-823 | The node with two children is replaced by its successor: the heap represents the tree without the node |
| GTreeSpine.SuccessorEntries | glib/gtree.c:776-823 | The in-order sequence afterwards is the old one without the node |
| GTreeSpine.CutShrunk | glib/gtree.c:791-800 | The place where the successor was taken out meets the condition on which the rebalancing loop starts |
| GTreeWalk.Neighbours | glib/gtree.c:377-414 | For every node of every represented tree, its children and threads lead to the previous and the next entry |
| GTreeWalk.NotLater | glib/gtree.c:425-458 | A node does not occur again among the later nodes of the traversal, so freeing it cannot hurt them |
| GTrees.GTree.constructor | glib/gtree.c:651-669 | A new tree is empty, well formed, owns no nodes and has one reference |
| GTrees.GTree.FindNode | glib/gtree.c:460-484 | Returns the node of the entry that compares equal, or null when there is none |
| GTrees.GTree.Descend | glib/gtree.c:162-224 | The search stops at an equal key or where the key belongs, with the ancestors on the path and no index outside it |
| GTrees.GTree.RestoreAfterInsert | glib/gtree.c:226-254 | The loop ends at path[0] or at its break with a balanced tree, true balances, and the in-order sequence unchanged |
| GTrees.GTree.RestoreAfterRemove | glib/gtree.c:826-853 | The same for removal |
| GTrees.GTree.InsertInternal | glib/gtree.c:148-257 | From any well-formed tree of at most 40 levels: well-formed afterwards, the entries are the old ones with the key inserted or overwritten; node identity, the wrapping nnodes and the destroy calls are exactly those of the case |
| GTrees.GTree.RemoveLeaf | glib/gtree.c:734-745 | A node without children is unlinked and the parent's balance corrected |
| GTrees.GTree.RemoveRightOnly | glib/gtree.c:746-760 | A node with only a right child is replaced by it, the leftmost thread redirected |
| GTrees.GTree.RemoveLeftOnly | glib/gtree.c:763-775 | A node with only a left child is replaced by it, the rightmost thread redirected |
| GTrees.GTree.RemoveTwo | glib/gtree.c:776-823 | A node with two children is replaced by its successor and the path leads to the node where rebalancing must start |
| GTrees.GTree.RemoveInternal | glib/gtree.c:690-867 | From any well-formed tree of at most 40 levels: true exactly when an equal key is stored, entries are the old ones without it, one node less, destroy calls unless stolen; false changes nothing at all |
| GTrees.GTree.Insert | glib/gtree.c:283-310 | The same as InsertInternal for fewer than 433,494,436 nodes, without a condition on heights; an existing key keeps its node and its old key |
| GTrees.GTree.Remove | glib/gtree.c:888-899 | The same as RemoveInternal for fewer than 433,494,436 nodes |
| GTrees.HeightFits | glib/gtree.c:151 | The node count alone guarantees that the path array is long enough |
| GTrees.GTree.CountExact | glib/gtree.c:18-26 | nnodes is the number of entries as long as that is below 2^32 |
| GTrees.GTree.First | glib/gtree.c:323-337 | The node of the first entry, or null |
| GTrees.GTree.Last | glib/gtree.c:350-364 | The node of the last entry, or null |
| GTrees.GTree.Next | glib/gtree.c:402-414 | From entry i to entry i+1, null after the last |
| GTrees.GTree.Previous | glib/gtree.c:377-389 | From entry i to entry i-1, null before the first, so it inverts Next |
| GTrees.GTree.Foreach | glib/gtree.c:616-632 | For any callback with a state of its own: it is called for the entries in ascending order, up to and including the first call that says stop, and for all of them otherwise |
| GTrees.GTree.FreeAll | glib/gtree.c:425-458 | Every node is freed once, in order, each key and value destroyed exactly once, and no freed node is read |
| GTrees.GTree.RemoveAll | glib/gtree.c:425-458 | The same, and the tree is empty and well formed afterwards |
| GTrees.GTree.Unref | glib/gtree.c:573-580 | The last reference destroys every entry once; any other call destroys nothing |
| GTrees.GTree.Destroy | glib/gtree.c:593-598 | Every key and value is destroyed exactly once although the last reference runs the removal twice |
| GTreeRuns.PutAnswers | glib/gtree.c:283-310 | An insertion turns a tree that answers like a map into one that answers like the updated map, and has as many entries |
| GTreeRuns.DropAnswers | glib/gtree.c:888-899 | The same for a removal |
| GTreeRuns.Perform | glib/gtree.c:283-310 | One operation on the heap keeps the tree well formed, in step with the map, and its keys and values accounted for |
| GTreeRuns.PerformAll | glib/gtree.c:651-669 | After any sequence of insertions and removals on a new tree, of any length, every key finds what a map would hold, while the map stays below the node limit; every key and value handed over is held or has been destroyed, exactly once |
| GTreeRuns.NewAccounted | glib/gtree.c:187-226 | Insertion of a new key: what is held and what has been destroyed are together what was handed over |
| GTreeRuns.OldAccounted | glib/gtree.c:170-186 | The same on a key that is there, where the key passed in and the old value are destroyed |
| GTreeRuns.DropAccounted | glib/gtree.c:855-860 | The same for a removal, where the stored key and value are destroyed |
| GTreeRuns.PerformAndDestroy | glib/gtree.c:593-598 | When the tree is destroyed after any such run, every key and every value that was ever handed over has been destroyed exactly once |
| GTreeRuns.Ask | glib/gtree.c:460-484 | Looking up a key after such a run gives the value of the map, or nothing when the map has none |
| GTreeRuns.Trace | glib/gtree.c:616-632 | For any callback: call i is for entry i with the state that call i-1 left, no call but the last says stop, and the last one does if entries remain |
| GTreeRuns.Gather | glib/gtree.c:616-632 | The same for a callback that collects a function of key and value and stops at a given condition |
| GTreeRuns.AllKeys | src/accel/tcg/translate-all.c:749 | A callback that never stops is called for every entry, in ascending order, with its key |
| GTreeRuns.AllValues | src/accel/tcg/translate-all.c:749 | The same with its value |
| GTreeRuns.KeysUpTo | glib/gtree.c:616-632 | A callback that stops at a key sees the entries up to and including the first one with that key, and all of them if there is none |
| TranslationBlocks.LookupFindsBlock | src/tcg/tcg.c:441-479 | Among disjoint blocks, a program counter finds the one block that contains it, or nothing when none does |
| TranslationBlocks.BlocksMayChange | src/tcg/tcg.c:451-479 | Inserting a disjoint block or removing a stored one meets the tree's demands, is found exactly when stored, and never fails the assertion on equal sizes |
| TranslationBlocks.MirrorIff | src/tcg/tcg.c:441-479 | The comparisons of a pair in both orders have opposite signs exactly for two blocks, a program counter inside the other block, or two different program counters |
| TranslationBlocks.NotAPreorder | src/tcg/tcg.c:451-479 | With any block and any program counter outside it, the comparison function is no total preorder |
| TranslationBlocks.InsertionKeepsDisjoint | src/tcg/tcg.c:190 | After inserting a block that overlaps none, or one stored already, the blocks lie one after the other again, so every later operation is well defined |
| TranslationBlocks.RemovalKeepsDisjoint | src/tcg/tcg.c:198 | The same after a removal |
| SoftFloatMul.Add128 | include/fpu/softfloat-macros.h:406-416 | The sum modulo 2^128 |
| SoftFloatMul.Sub128 | include/fpu/softfloat-macros.h:464-472 | The difference modulo 2^128 |
| SoftFloatMul.Add192 | include/fpu/softfloat-macros.h:426-454 | The sum modulo 2^192 |
| SoftFloatMul.Sub192 | include/fpu/softfloat-macros.h:482-510 | The difference modulo 2^192 |
| SoftFloatMul.UndoneModulo | include/fpu/softfloat-macros.h:426-510 | Adding a number modulo 2^192 and taking it away again gives back the same three words, also when the sum overflowed |
| SoftFloatMul.SubUndoesAdd192 | include/fpu/softfloat-macros.h:482-510 | sub192 applied to the result of add192 gives back the words |
| SoftFloatMul.AddUndoesSub192 | include/fpu/softfloat-macros.h:426-454 | add192 applied to the result of sub192 gives back the words |
| SoftFloatMul.Mul64To128 | include/fpu/softfloat-macros.h:518-539 | The exact 128-bit product |
| SoftFloatMul.Mul128By64To192 | include/fpu/softfloat-macros.h:548-567 | The exact 192-bit product |
| SoftFloatMul.Mul128To256 | include/fpu/softfloat-macros.h:576-604 | The exact 256-bit product |
| SoftFloatDiv.Correct | include/fpu/softfloat-macros.h:681-691 | At most two corrections of a trial digit, with additions that may wrap around, give the digit and remainder they should |
| SoftFloatDiv.DivideDigit | include/fpu/softfloat-macros.h:677-691 | One half-word digit of the quotient and its remainder are exact |
| SoftFloatDiv.UdivQrnnd | include/fpu/softfloat-macros.h:671-711 | For d >= 2^63 and n1 < d: exactly the quotient and the remainder of the two-word number |
| SoftFloatDiv.EstimateBounds | include/fpu/softfloat-macros.h:622-632 | A digit estimated from the leading half-words is never too small and at most two too large |
| SoftFloatDiv.CorrectHigh | include/fpu/softfloat-macros.h:626-630 | The loop turns at most twice, never below zero, and leaves the true remainder, read off the sign bit of a wrapped word |
| SoftFloatDiv.HighDigit | include/fpu/softfloat-macros.h:622-630 | After the loop the high digit of the quotient is exact, and the two words hold exactly what is left over |
| SoftFloatDiv.EstimateDiv128To64 | include/fpu/softfloat-macros.h:606-635 | Between the true quotient and two more when it fits, and 2^64-1 when it does not |
| SoftFloatJam.Shift64Jams | include/fpu/softfloat-macros.h:122-137 | Floor division by 2^count with a sticky lowest bit, for every count |
| SoftFloatJam.Shift64Compose | include/fpu/softfloat-macros.h:122-137 | Shifting by m and then by n is shifting by m+n |
| SoftFloatJam.JamCompose | include/fpu/softfloat-macros.h:122-258 | Division with a sticky bit composes, for numbers of any size |
| SoftFloatJam.Shift128Jams | include/fpu/softfloat-macros.h:228-258 | The same for two words, across all five ranges of count |
| SoftFloatJam.Shift128Compose | include/fpu/softfloat-macros.h:228-258 | Two shifts of two words are one |
| SoftFloatJam.Shift64ExtraJams | include/fpu/softfloat-macros.h:156-183 | The result is the exact quotient, and the extra word compares with 0 and 2^63 as the discarded fraction does with 0 and 1/2 |
| SoftFloatJam.Shift128ExtraJams | include/fpu/softfloat-macros.h:279-328 | The same for two words and an extra word |
| SoftFloatJam.Shift64Rounds | include/fpu/softfloat-macros.h:156-183 | Rounding the result by its extra word gives, in all six rounding modes, what rounding the exact quotient gives |
| SoftFloatJam.Shift128Rounds | include/fpu/softfloat-macros.h:279-328 | The same for two words |
| SoftFloatJam.RoundedIs | include/fpu/softfloat-types.h:132-144 | What each rounding mode means for the signed number: nearest with ties to even or away, floor, ceiling, magnitude cut, odd when inexact |
| SoftFloatJam.JamRest | include/fpu/softfloat-macros.h:122-258 | A number shifted with jamming keeps its quotient, and its rest lies at, below or above zero and one half as the exact rest does, when two bits or more are left |
| SoftFloatJam.JamRoundsIff | include/fpu/softfloat-macros.h:122-258 | Shifting with jamming before rounding is harmless for all numbers and modes exactly when nothing was shifted or at least two bits are left to round away |
| SoftFloatSqrt.OddFits | include/fpu/softfloat-macros.h:726-729 | Every entry of the odd table keeps its stretch within the bound at both ends |
| SoftFloatSqrt.EvenFits | include/fpu/softfloat-macros.h:730-733 | The same for the even table |
| SoftFloatSqrt.FirstClose | include/fpu/softfloat-macros.h:737-744 | For every significand the guess from the table is close to the root |
| SoftFloatSqrt.OddEstimate | include/fpu/softfloat-macros.h:738-740 | The first Newton step for odd exponents fits into 32 bits and is less than 2^15 below and at most 2^16 above the root |
| SoftFloatSqrt.EvenEstimate | include/fpu/softfloat-macros.h:743-746 | The same for even exponents, also when the step is cut off at 32 bits |
| SoftFloatSqrt.NearTop | include/fpu/softfloat-macros.h:747 | The early result near 2^32 is strictly within two of the root |
| SoftFloatSqrt.LastDivision | include/fpu/softfloat-macros.h:749 | The second Newton step is strictly within two of the root, roundings included |
| SoftFloatSqrt.EstimateSqrt32 | include/fpu/softfloat-macros.h:714-751 | For every significand a of at least 2^31, r fits into 32 bits, (r-2)^2 < a*2^31 < (r+2)^2 for an odd exponent and (r-2)^2 < a*2^32 < (r+2)^2 for an even one |
| SoftFloatSqrt.WithinTwoOfRoot | include/fpu/softfloat-macros.h:714-722 | In terms of the real root: the result lies strictly within +/-2 of it |
| TailQueue.Queue.constructor | include/qemu/queue.h:388-392 | An empty queue whose back link is circular |
| TailQueue.Queue.InsertHead | include/qemu/queue.h:394-402 | The element comes first, and the circle of back links is kept |
| TailQueue.Queue.InsertTail | include/qemu/queue.h:404-410 | The element comes last |
| TailQueue.Queue.InsertAfter | include/qemu/queue.h:412-420 | The element comes right after the given one, also when that was the last |
| TailQueue.Queue.InsertBefore | include/qemu/queue.h:422-428 | The element comes right before the given one |
| TailQueue.Queue.Remove | include/qemu/queue.h:430-439 | Exactly the element is gone and marked unused |
| TailQueue.Queue.RemoveSeveral | include/qemu/queue.h:441-450 | Exactly the elements from left to right are gone, and all of them keep their back links |
| TailQueue.Queue.Last | include/qemu/queue.h:475-476 | The last element, or NULL for an empty queue |
| TailQueue.Queue.Prev | include/qemu/queue.h:477-478 | The element before, or NULL before the first |
| TailQueue.Queue.Forward | include/qemu/queue.h:452-453 | Visits the elements in order |
| TailQueue.Queue.Backward | include/qemu/queue.h:459-460 | Visits every element once, from the last to the first: visited[i] is the element at n - 1 - i |
| TailQueue.Queue.InUse | include/qemu/queue.h:472 | A queued element is never taken for unused |
| TailQueue.History.InsertHead | include/qemu/queue.h:394-402 | Over a history: an element put in is no longer stale |
| TailQueue.History.InsertTail | include/qemu/queue.h:404-410 | The same at the end |
| TailQueue.History.InsertAfter | include/qemu/queue.h:412-420 | The same after an element |
| TailQueue.History.InsertBefore | include/qemu/queue.h:422-428 | The same before an element |
| TailQueue.History.Remove | include/qemu/queue.h:430-439 | An element taken out alone does not become stale |
| TailQueue.History.RemoveSeveral | include/qemu/queue.h:441-450 | Exactly the elements taken out together become stale |
| TailQueue.History.InUse | include/qemu/queue.h:472 | After any history, used is said of exactly the queued and the stale elements, so it is right exactly about those that are not stale |
| TailQueue.RemovedLookUsed | include/qemu/queue.h:441-472 | Every element taken out by QTAILQ_REMOVE_SEVERAL is reported as used although it is not queued |
| LockFreeList.InitInv | include/qemu/queue.h:202-214 | The invariant holds at the start |
| LockFreeList.StepInv | include/qemu/queue.h:202-214 | Every step of every thread keeps it: lists acyclic, one owner per element, remembered heads genuine |
| LockFreeList.RunSafe | include/qemu/queue.h:202-214 | It holds in every state of every interleaving of any number of threads, also when drained elements are pushed again |
| LockFreeList.Conservation | include/qemu/queue.h:202-214 | The successful pushes, in order, are exactly the drained batches, each reversed, followed by the live list reversed |
| LockFreeList.ListIsLog | include/qemu/queue.h:202-214 | In every state of every run the links in memory spell the list that the successful updates define |
| LockFreeList.MoveDelivers | include/qemu/queue.h:211-214 | A drain delivers the whole live list to one thread, which alone owns its elements, whatever it held before |
| LockFreeList.MoveLoses | include/qemu/queue.h:211-214 | A drain loses exactly the elements of the private list it overwrites, so it loses nothing exactly when that list was empty |
| LockFreeList.SecondMoveLoses | include/qemu/queue.h:211-214 | A run in which one thread pushes, moves, pushes and moves again reaches a state in which the first element is lost |
| LockFreeList.NothingLost | include/qemu/queue.h:211-214 | In a run that drains only into empty private lists no element is ever lost |
| LockFreeList.CasPushes | include/qemu/queue.h:202-209 | A successful compare-and-swap puts the element in front of the current list, even if the head left and came back since it was read |
| LockFreeList.CasFails | include/qemu/queue.h:202-209 | A failed compare-and-swap means that another thread changed the head since it was read; the shared list and the log stay as they are |
| LockFreeList.LeavesByPushing | include/qemu/queue.h:202-209 | A thread leaves a push only by the compare-and-swap that puts its element on the list, and pushes no other element meanwhile |
| LockFreeList.NoPushGivenUp | include/qemu/queue.h:202-209 | In every run a push that was begun is later still under way, or its element was put on the list since |
| LockFreeList.NeverBlocked | include/qemu/queue.h:202-214 | In every state every thread can take a step: the next one of its push, or any operation when it is idle |
| LockFreeList.PushEnds | include/qemu/queue.h:202-209 | From every state a push that is under way ends within five undisturbed steps of its thread, with its element on the list |
| LockFreeList.CanPush | include/qemu/queue.h:202-209 | An idle thread can push any free element, and the first element of its drained list, which then starts at the next one |
| GStrings.NearestPower | glib/gstring.c:40-52 | The least doubling of base that is not below num, without overflow; the maximum for sizes above half of it |
| GStrings.Doubles | glib/gstring.c:54-59 | A larger power of two is at least twice as large, so every reallocation doubles |
| GStrings.GString.constructor | glib/gstring.c:72-83 | An empty, terminated string with room for the requested size, at least 64, in a buffer less than twice as large as that needs |
| GStrings.GString.MaybeExpand | glib/gstring.c:54-59 | Contents kept; the size stays a power of two above len; a reallocation takes the least power of two with room for extra bytes and the terminator and at least doubles the size; the sum of all sizes ever allocated stays below twice the current one |
| GStrings.GString.FillInside | glib/gstring.c:167-178 | The two copies fill the gap, byte by byte, from the places FetchIndex names, for any source in the allocation; both copies are in bounds and do not overlap |
| GStrings.SplicedAt | glib/gstring.c:145-199 | What inserting at a position means byte by byte; a negative position appends and one behind the end changes nothing |
| GStrings.GString.OutsideBytes | glib/gstring.c:138-143 | The bytes of a source in other memory: the first n, or those before the first zero byte when n is negative |
| GStrings.GString.InsideBytes | glib/gstring.c:138-143 | The bytes of a source inside the string, from its offset, likewise |
| GStrings.GString.InsertLen | glib/gstring.c:128-201 | old[..pos] + val + old[pos..] with a terminator, for val outside the buffer (byte pos + i is val[i]) or any part of the string itself, across reallocation; a source that reaches behind the string inserts exactly the bytes that Fetched names; refused arguments change nothing; the buffer stays, or grows to the least power of two with room |
| GStrings.FetchesString | glib/gstring.c:162-178 | The bytes inserted are the bytes val pointed at, for every content of the unused part of the buffer, exactly when the source ends before the terminator |
| GStrings.TerminatorAsSource | glib/gstring.c:154-178 | With the terminator as source and position 0 the byte behind the terminator is inserted |
| GStrings.FetchesInside | glib/gstring.c:158-178 | For a source with n addressable bytes no byte is fetched from outside the allocation exactly when the string has to grow or offset + 2n fits |
| GStrings.GString.InsertC | glib/gstring.c:480-505 | One byte inserted at the position, or nothing when the position is refused; the buffer stays or at least doubles in both cases |
| GStrings.GString.WriteChar | glib/gstring.c:558-565 | The backward loop writes exactly the encoding of the code point |
| GStrings.GString.InsertUnichar | glib/gstring.c:519-572 | The encoding inserted at the position, or nothing when the position is refused; the buffer stays or at least doubles in both cases |
| GStrings.AppendAll | glib/gstring.c:464-468 | Code points below 2^31 appended one by one to any string add their encoding; behind any list that was there before they decode back to the two lists in order, and no other list gives these bytes |
| Utf8.LeadBound | glib/gstring.c:525-565 | The leading bits never run into the marker bits |
| Utf8.RoundTrip | glib/gstring.c:519-572 | Decoding the encoding of any list gives the list |
| Utf8.OnlyEncodings | glib/gstring.c:519-572 | Whatever the decoder accepts is the encoding of what it returns |
| Utf8.Unambiguous | glib/gstring.c:519-572 | Different lists have different encodings |
| Utf8.Shortest | glib/gstring.c:525-544 | Every form of a leading byte and continuation bytes, overlong or not, that carries the code point has at least as many bytes as the encoding, which is such a form itself |
| Utf8.FormBelow | glib/gstring.c:525-544 | No form of n bytes carries a number of Capacity(n) or more |
| Utf8.MatchesRfc3629 | glib/gstring.c:525-565 | Up to 0x10FFFF the bytes are those of the table in section 3 of RFC 3629 |
| Utf8.MatchesRfc2279 | glib/gstring.c:525-565 | Above 0x10FFFF, for every 32-bit value, the bytes are those of the four-, five- and six-byte rows of the table in section 2 of RFC 2279, the last of which the code uses from 2^31 on as well |
| Utf8.LegalIff | glib/gstring.c:519-572 | For every 32-bit value the bytes are legal by the grammar in section 4 of RFC 3629 exactly when the value is a Unicode scalar value |
| Utf8.LegalAreEncodings | glib/gstring.c:519-572 | Every legal character is the encoding of a scalar value |
| Utf8.SurrogateWritten | glib/gstring.c:519-572 | For 0xD800 the bytes ED A0 80 are written, which are not legal |
| Bitmaps.TestBit | include/qemu/bitops.h:30-32 | The bit at that place |
| Bitmaps.SetBit | include/qemu/bitops.h:51-56 | That bit is set and no other changes |
| Bitmaps.ClearBit | include/qemu/bitops.h:39-44 | That bit is cleared and no other changes |
| Bitmaps.SpanHigh | include/qemu/bitmap.h:28 | The first-word mask has exactly the bits from start on |
| Bitmaps.LastMask | include/qemu/bitmap.h:29 | The last-word mask has exactly the bits before the end |
| Bitmaps.BitmapSet | src/util/bitmap.c:50-86 | Exactly the bits of the range are set, across words |
| Bitmaps.BitmapTestAndClear | src/util/bitmap.c:4-48 | Exactly the bits of the range are cleared; true exactly when one of them was set |
| Bitmaps.FindNextBit | src/util/bitops.c:7-65 | The first set bit from offset on and before size, or size when there is none |
| Bitmaps.FindNextZeroBit | src/util/bitops.c:99-142 | The first clear bit, or size |
| DirtyMemory.PagesExact | include/exec/ram_addr.h:116-117 | The pages looked at are the pages that meet the address range exactly when the range is not empty or its start is aligned |
| DirtyMemory.Tracker.SomeMeets | include/exec/ram_addr.h:106-143 | For a range with addresses in it, the page interval has a page in some state exactly when a page meeting the range is in it |
| DirtyMemory.Tracker.constructor | src/qemu/memory.c:879-898 | At first exactly the pages of the memory are dirty; there are blocks for as many pages as the memory has bytes, rounded up to whole blocks |
| DirtyMemory.Tracker.SetDirtyFlag | include/exec/ram_addr.h:87-104 | That page becomes dirty and no other changes |
| DirtyMemory.Tracker.GetDirty | include/exec/ram_addr.h:106-143 | True exactly when some page of the range is dirty, across blocks |
| DirtyMemory.Tracker.SetDirtyRange | include/exec/ram_addr.h:150-199 | Exactly the pages of the range become dirty, across blocks; mask 0 changes nothing |
| DirtyMemory.Tracker.IsClean | include/exec/ram_addr.h:201-210 | True exactly when the page of the address is clean |
| DirtyMemory.Tracker.AllDirty | include/exec/ram_addr.h:221-257 | True exactly when no page of the range is clean |
| DirtyMemory.Tracker.RangeIncludesClean | include/exec/ram_addr.h:259-283 | The CODE bit exactly when some page of the range is clean, otherwise 0 |
| DirtyMemory.Tracker.TestAndClearDirty | src/qemu/exec.c:301-348 | Exactly the pages of the range become clean; true exactly when one of them was dirty |
| Interrupts.StepInv | env/userspace/signal-timer.c:71-94 | Every instruction and every signal keeps flags, mask, mutex and handler stack in line with where the two flows stand |
| Interrupts.AlwaysSafe | src/env-timer.c:7-25 | In every run no assertion fails and nothing deadlocks, handlers do not nest, __blocked implies masked, and no handler runs while blocked or during the main flow's critical section |
| Interrupts.FailedIff | src/env-timer.c:7-25 | A run counts as failed exactly when one of its steps executed an assertion that was false, took the mutex while it was held or gave it back while it was not |
| Interrupts.EveryStepPasses | src/env-timer.c:7-25 | In every reachable state, whatever either flow may execute next, its assertion is true and the mutex is free to be taken or held to be given back |
| Interrupts.SignalServed | env/userspace/signal-timer.c:17-21 | In every reachable state without a handler and with the signal unmasked a signal enters the handler, which holds the lock in interrupt context after six steps and after fourteen has left the state as it was |
| Interrupts.SignalWaits | env/userspace/signal-timer.c:17-21 | A masked signal changes nothing; while a handler runs the signal is masked and the main flow stands still |
| Interrupts.MainServed | src/qemu/cpus.c:46-73 | Without a handler the main flow always gets through to the start of its next round, from every reachable state |
| Interrupts.RoundServed | src/qemu/cpus.c:46-73 | In a round left alone, the instructions after which the signal is masked, the flag is up, the mutex is held and iothread_locked is set, each exactly |
| Interrupts.OrderMatters | env/userspace/signal-timer.c:75-94 | Of the four orders of the flag and mask updates, the one in the source is the only one in which no run fails an assertion |

## Left out

- Inline-assembly branches of udiv_qrnnd: only the portable branch is modelled.
- Weak memory ordering: every atomic access is one sequentially consistent step, and barriers have no effect.
- Bitmaps.BitmapSet: concurrent users of one bitmap are not modelled; each call is sequential code.
- Bitmaps.BitmapTestAndClear: the same.
- GTrees.GTree.Unref: reference counts are changed sequentially, and the reference count is assumed not to overflow.
- GStrings.GString.MaybeExpand: requests above 2^63-1 bytes, on which the allocator aborts, are excluded.
- GStrings.GString.InsertLen: a source that starts behind the terminator, in the unused part of the buffer, is not modelled; one that would be fetched from outside the allocation is excluded (FetchesInside).
- DirtyMemory.Tracker.TestAndClearDirty: the TLB flush after a hit and the check against the RAM block are not modelled.
- Bitmaps of the other two dirty-memory clients: they are never allocated.
- Interrupts.AlwaysSafe: the work done by the handler is assumed to touch none of the flags, as the source requires.
- The loongarch versions of block_interrupt and unblock_interrupt, and timers themselves.
- GTrees.GTree.Foreach: a callback that changes the tree during the traversal is not modelled.
- QSIMPLEQ, QLIST and the plain QSLIST macros: they would only add easier members.
- printf-based string functions, the other wrappers around g_string_insert_len, and glib/gmem.c.
- The TLB, the jump cache, device models, boot code and everything else of the emulator.
