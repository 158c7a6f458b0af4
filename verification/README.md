# Verified models of JavaScript engine, debugger and JSON code

The modules model the parts of the repository that are hardest to get right, and prove what each
step keeps and what whole runs promise.

**Sorting and arrays with holes** (`js/src/jsarray.c`).  `HeapSort.dfy` has the heap sort whose root
stands in the last slot; sorting works on a real array, through a moving hole.  `ArrayIndex.dfy` has
the decision which property ids are array indices, in 32-bit arithmetic.  `SparseArray.dfy` has array
objects with a length hook, and the methods that move places about; each law is stated with the exact
condition under which the code meets it, which is that the resulting length fits 32 bits (for
`shift`: that there is no hole to fill), and `ArrayLimits.dfy` has what comes out when it is not met.
`ArraySort.dfy` has `sort` on arrays with holes, for every comparison function, consistent or not.

**The arena allocator** (`js/src/jsarena.c`, `js/src/jsarena.h`, `js/src/jsbit.h`).  `Bits.dfy` and
`ArenaLayout.dfy` have the bit and header arithmetic; `ArenaModel.dfy` the pool as a list of arenas
with its invariant; `ArenaSteps.dfy` what each call does to that list and to memory;
`ArenaLinks.dfy` how links and hidden back-pointers represent the list; `Arena.dfy` the pointer code
itself, method by method; `ArenaRuns.dfy` whole runs, with the bytes of every allocation, and mark
and release; `ArenaScripts.dfy` the pointer code under any program and any honest `malloc`.

**The profiler clock** (`js/jsd/jsd_step.c`).  `Profiler.dfy` proves that time is conserved under
recursion, against a definition on call trees.

**The debugger's values** (`js/jsd/jsd_val.c`).  `Ownership.dfy` says what reference counting should
do: live is what the client can reach.  `ValueRecords.dfy` couples records, counts and collector
roots to that, including the moments in the middle of a recursive free.  `Values.dfy` has the
operations.

**Source texts** (`js/jsd/jsd_text.c`): `SourceText.dfy` has the calls, `SourceRuns.dfy` what every
sequence of them keeps.

**The reentrant lock** (`js/jsd/jsd_lock.c`): `DebuggerLock.dfy`, as interleaved single reads and
writes of any number of threads, with what it protects and that its calls come to an end.  **Argument formatters** (`js/src/jsapi.c`): `Formatters.dfy`.

**JSON** (`contrib/json/json2.js`).  `Json2.dfy` has `quote`, `JsonPrint.dfy` the printer, client code
included, against the layout of the standard, `JsonLayout.dfy` where in it white space stands, `JsonFilter.dfy` the four regular expressions in front
of `eval` and exactly which printed texts they let through, `JsonMeaning.dfy` a reader for the JSON
grammar, which gives back what was printed.

## Where the code does not do the obvious thing

- `array_unshift`, `array_splice`, `array_push` and `array_concat` wrap the length at 2^32; their laws
  hold if and only if the new length fits.  Past that, `push` and `unshift` lose every old place, and
  all of them leave fewer places than there were.
- `array_shift` fills holes with undefined; it gives the defined rest if and only if there is none.
- `js_IdIsIndex` stops at a NUL: a string such as "7" followed by NUL counts as the index 7.  It agrees
  with the definition exactly on the strings that have more than ten characters or in which no NUL
  follows a canonical numeral.
- With an alignment of 32 or more another arena can have the base of the pool's embedded one, and then
  the inline release can take it for the arena of a mark; it cannot happen if and only if the first
  base lies below every base behind the pool, and so never with an alignment of up to 16.
- `JS_ARENA_GROW` takes the sum of its arguments without looking whether it wraps around; it covers what
  was asked for if and only if the rounded sum does not.  If it does, the last allocation of the
  current arena grows in place, and the cursor stays or goes back into the client's bytes; any
  other is copied into a smaller one, or its arena made smaller.
- The assertion at the end of `JS_ArenaRealloc` holds at every address if and only if the new size is
  aligned, which nobody sees to.  With blocks that are aligned as much as the pool, it holds for every
  size up to an alignment of 16.
- `jsd_GetValueProperty` joins three conditional operators with `|`, which binds more tightly than they
  do: only the first of enumerable, read-only and permanent is reported.  It also adds these flags
  to a field that it has not set.
- The debug check of the lock, made on entry to `jsd_Lock`, can fail while another thread is between
  its two writes; it holds exactly when no thread is.
- White space is not always harmless as an indent for `JSON.stringify`: U+2028, U+2029, U+202F and
  U+FEFF are matched by `\s` but replaced by the first stage of `JSON.parse`, and then the text is
  refused, if and only if a line break was printed.
- When an append runs out of memory, `jsd_AppendSourceText` sets the status to failed and then moves
  the item to the removed list, which sets it to cleared.
- Normalizing a `file://` URL is not idempotent when two more slashes follow, and `file:x` is kept under
  the same URL as `file://x`.
- `jsd_GetValueProperty` goes on to the next property when the string of a name cannot be made; then it may
  miss a listed property, which cannot happen to one whose name is a string.

## Model

| member | source | states |
|---|---|---|
| HeapSort.Sort | js/src/jsarray.c:806-823 | For every vector and every comparator the result is a permutation; it is nondecreasing in every order whose questions the comparator answers, in particular in its own order when it is a total preorder on the elements |
| HeapSort.SortedByItself | js/src/jsarray.c:806-823 | When the comparator is a total preorder on the elements, no element compares greater than a later one, asked in this order |
| HeapSort.HeapSortHelper | js/src/jsarray.c:741-804 | Sifting node lo of the rotated heap (root in vec[hi-1], node k in vec[k-2]) permutes vec[0..hi), touches nothing behind it, and turns a heap from lo+1 on into a heap from lo on |
| HeapSort.SiftDown | js/src/jsarray.c:785-803 | The moving hole: with the pivot put back into the hole the slots are a permutation, and when the sift ends the heap property holds from lo on |
| HeapSort.SiftStep | js/src/jsarray.c:785-801 | Moving the larger child up into the hole leaves only that child's node to repair |
| HeapSort.SiftDone | js/src/jsarray.c:785-803 | A pivot not below the larger child, or a leaf, completes the heap |
| HeapSort.RootIsNotAbove | js/src/jsarray.c:767-774 | In the building phase by the test, in the sorting phase without it, the root does not exceed the larger child when it is moved down |
| HeapSort.RootTestIsNeedless | js/src/jsarray.c:767-774 | The remark in the code, for every round with hi above 2: the value in vec[hi-1] never compares greater than the child it would be tested against |
| HeapSort.RootIsLargest | js/src/jsarray.c:806-823 | In a rotated heap no node exceeds the root, so the last slot already holds the maximum |
| HeapSort.DropMaximum | js/src/jsarray.c:820-822 | Shortening the heap leaves its maximum behind the heap, above everything left, and the new root needs only the sift without the early test |
| HeapSort.NextPhase | js/src/jsarray.c:820-822 | Every round keeps: heap in front, sorted tail behind, and everything in the heap at most everything in the tail |
| HeapSort.LastPhase | js/src/jsarray.c:820-822 | Once at most two nodes are left the whole vector is sorted |
| HeapSort.ConsistentServes | js/src/jsarray.c:806-823 | A comparator that is a total preorder on the elements answers the questions of its own order |
| ArrayIndex.IdIsIndex | js/src/jsarray.c:84-127 | The scan in wrapping 32-bit arithmetic accepts an id with result n exactly when the id denotes the array index n |
| ArrayIndex.StringIsIndex | js/src/jsarray.c:96-126 | The string branch: the wrap-around test is right for every string, and the scan stops at a NUL |
| ArrayIndex.IndexStrings | js/src/jsarray.c:84-127 | A string without NUL denotes n exactly when it is the canonical decimal of n and n is below 2^32-1 (ECMA-262 3rd edition, section 15.4) |
| ArrayIndex.IndexStringsExactly | js/src/jsarray.c:84-127 | For every string: js_IdIsIndex agrees with the definition on all indices if and only if it is not a string of at most ten characters in which a NUL follows a canonical numeral |
| ArrayIndex.NulEndsAnIndex | js/src/jsarray.c:96-126 | Such a string: the digit 7 followed by a NUL denotes the index 7 and is not its numeral |
| ArrayIndex.IdRoundTrip | js/src/jsarray.c:202-220 | js_IdIsIndex inverts IndexToId on every 32-bit number but 2^32-1, and accepts nothing else for the ids IndexToId makes |
| ArrayIndex.IdsAreDistinct | js/src/jsarray.c:202-220 | Different numbers have different ids |
| ArrayIndex.DecimalIsCanonical | js/src/jsarray.c:202-220 | The numeral made for an index has no superfluous leading zero and denotes the index |
| ArrayIndex.CanonicalIsDecimal | js/src/jsarray.c:84-127 | Digits without a superfluous leading zero are the numeral of what they denote |
| SparseArray.ArrayObject.AddProperty | js/src/jsarray.c:320-333 | The hook keeps every present index below the length, and index+1 never overflows because 2^32-1 is no index |
| SparseArray.ArrayObject.SetLength | js/src/jsarray.c:298-317 | Setting the length deletes exactly the keys from the new length on, and keeps the length invariant (ECMA-262 3rd edition, section 15.4.5) |
| SparseArray.ArrayObject.Set | js/src/jsarray.c:320-333 | Storing under a 32-bit key changes only that key, and the length as the hook does |
| SparseArray.ArrayObject.Delete | js/src/jsarray.c:1319-1322 | Deleting changes only that key and never the length |
| SparseArray.ArrayObject.Reverse | js/src/jsarray.c:648-723 | The array becomes its places in reverse order; holes move as holes |
| SparseArray.ArrayObject.Unshift | js/src/jsarray.c:1142-1192 | The array becomes the arguments followed by the old places if and only if the new length is at most 2^32-1; otherwise it becomes the first of the arguments, as many as the wrapped length says |
| SparseArray.ArrayObject.Splice | js/src/jsarray.c:1195-1359 | With the begin counted from the end when it is negative, and cut off, the removed places are the next ones, as many as the count says and there are, or all when no count is given; they come back exactly, holes included, and the array is orig[..begin] + items + orig[end..] if and only if its length fits; otherwise each place left is the item, or the old place that has come round, that was written there last; without arguments nothing happens |
| SparseArray.SpliceIsPlain | js/src/jsarray.c:1215-1250 | What the positions computed by the code come to: a negative start counts from the end, a negative count removes nothing, and no count removes all the rest |
| SparseArray.ArrayObject.Replace | js/src/jsarray.c:1300-1358 | The second half of splice for both directions of the move, with the final length set |
| SparseArray.ArrayObject.MoveUp | js/src/jsarray.c:1301-1324 | Copying upwards from the last place down overwrites nothing before it is read if the keys fit; if they wrap around, what is read is what has cascaded down from the end |
| SparseArray.ArrayObject.MoveDown | js/src/jsarray.c:1325-1347 | Copying downwards from the first place up overwrites nothing before it is read |
| SparseArray.ArrayObject.CopyOut | js/src/jsarray.c:1272-1296 | The copied array has exactly the places begin to end, holes included |
| SparseArray.SplicedPlaces | js/src/jsarray.c:1300-1358 | Moving the tail, storing the items and cutting the length add up to the defined splice |
| SparseArray.ArrayObject.Slice | js/src/jsarray.c:1439-1507 | The result is exactly the places i from the begin to before the end, each counted from the end when it is negative, in order and with their holes |
| SparseArray.Concat | js/src/jsarray.c:1367-1436 | The result is the concatenation of the places of all array arguments and of the other arguments if and only if the total length is at most 2^32-1; otherwise each place left has the last value stored under its key |
| SparseArray.AppendTo | js/src/jsarray.c:1390-1433 | One turn of the loop appends the places of one argument behind the places so far, under keys that wrap around |
| SparseArray.ArrayObject.Push | js/src/jsarray.c:1035-1062 | Push appends its arguments if and only if the new length is at most 2^32-1; otherwise the array becomes those of them whose keys have wrapped around |
| SparseArray.ArrayObject.Pop | js/src/jsarray.c:1065-1092 | Pop cuts the last place and returns its value, undefined for a hole |
| SparseArray.ArrayObject.Shift | js/src/jsarray.c:1095-1139 | Shift fills the holes of the rest with undefined, and gives the defined rest if and only if the rest has no hole |
| ArrayLimits.PushWraps | js/src/jsarray.c:1035-1062 | Every outcome of a push is the defined sequence if and only if it fits; past the limit all old places are lost and the values whose keys have wrapped around are all there is, so one value onto 2^32-1 places leaves none |
| ArrayLimits.UnshiftWraps | js/src/jsarray.c:1142-1192 | Every outcome of an unshift is the defined sequence if and only if it fits; past the limit only the first of the new values are left |
| ArrayLimits.SpliceWraps | js/src/jsarray.c:1195-1359 | Every outcome of a splice is the defined sequence if and only if it fits; past the limit the array is shorter than it was, with the first items from begin on, and before them the last items or places from the end of the old array |
| ArrayLimits.CascadesToEnd | js/src/jsarray.c:1301-1324 | A place that was moved up by 2^32-d again and again comes from the last d places, a multiple of d further on |
| ArrayLimits.ShiftFillsHoles | js/src/jsarray.c:1095-1139 | Every outcome of a shift is the rest of the places if and only if that has no hole; for each hole there is undefined, as for a second place that is one |
| ArrayLimits.ConcatWraps | js/src/jsarray.c:1367-1436 | Every outcome of a concatenation is the joined places if and only if they fit; past the limit at least 2^32 places are missing, and a place is a hole exactly when every place with its key was one |
| ArrayLimits.ConcatOfFull | js/src/jsarray.c:1367-1436 | A full array and one value: nothing comes out |
| ArraySort.Sort | js/src/jsarray.c:921-1027 | The places are permuted; the ordinary values come first, then every undefined, then the holes in exactly the last places, for every comparison function; in the end no ordinary value compares greater than a later one, asked as call(earlier, later), if the function is consistent on them, and by the default order an earlier text is a prefix of a later one or smaller where they first differ; it fails exactly for a primitive, for a length whose vector would exceed the size limit, or without memory for the vector, and then nothing has changed |
| ArraySort.SortsPlainly | js/src/jsarray.c:998-1005 | The order in which an array is sorted is said in terms of the comparison function itself, or of the texts, code unit by code unit |
| ArraySort.SortedAscends | js/src/jsarray.c:833-918 | Sorted by the comparators of the code, an earlier ordinary value does not stand above a later one by that function or those texts |
| ArraySort.CallsAreOrder | js/src/jsarray.c:883-904 | A function whose answers are consistent, in sign and in sequence, gives a total preorder, with the smaller first where it answers a negative number |
| ArraySort.CompareStringsExactly | js/src/jsstr.c:2830-2845 | The comparison of two texts is not positive exactly when the first is a prefix of the second, or has the smaller code unit at the first place where they differ |
| ArraySort.SortCompareIsConsistent | js/src/jsarray.c:833-910 | sort_compare extends a total preorder on the ordinary values to one on all places with undefined above them and holes on top |
| ArraySort.SortCompareServesClasses | js/src/jsarray.c:833-910 | Whatever the comparison function answers, sort_compare agrees with the order ordinary, undefined, hole |
| ArraySort.TextOrderIsConsistent | js/src/jsarray.c:862-881 | The default order by js_ValueToString is a total preorder on all values |
| ArraySort.StringsCompareAlike | js/src/jsarray.c:913-918 | On strings the fast comparator and sort_compare agree |
| ArraySort.GuaranteedIsServed | js/src/jsarray.c:998-1005 | Both comparators that may be passed to js_HeapSort answer the order that sorting guarantees |
| ArraySort.Clamp | js/src/jsarray.c:891-904 | The number a comparison function returns becomes -1, 0 or 1 with the same sign, infinities included, and NaN becomes 0 |
| ArraySort.CompareStringsLoop | js/src/jsstr.c:2830-2845 | The loop gives the first difference of code units, or else the difference of lengths |
| ArraySort.CompareStringsFlips | js/src/jsstr.c:2830-2845 | Comparing the other way round flips the sign, and only equal strings compare equal |
| ArraySort.CompareStringsChains | js/src/jsstr.c:2830-2845 | The comparison of strings is transitive |
| ArraySort.InitArrayElements | js/src/jsarray.c:593-607 | The vector's values land in the first places and no other place changes; that the vector has no hole is demanded |
| ArraySort.ReadElements | js/src/jsarray.c:977-996 | The vector holds the places of the array and newlen counts the present ones |
| ArraySort.WriteBack | js/src/jsarray.c:1007-1021 | Setting newlen values and deleting the rest makes the array equal to the sorted vector: exactly [newlen, len) become holes |
| ArraySort.HolesLast | js/src/jsarray.c:1007-1021 | In a vector sorted by class the holes are exactly the places from the count of present ones on, so InitArrayElements never sees one |
| ArraySort.CountPresentByMultiset | js/src/jsarray.c:977-996 | The count of present places depends only on the multiset, so sorting keeps it |
| Bits.FloorLog2 | js/src/jsbit.h:96-110 | The macro's shifts give the floor of the base 2 logarithm of every 32-bit word |
| Bits.CeilingLog2 | js/src/jsbit.h:72-94 | The macro gives the least exponent whose power of two is not below n, 0 for n up to 1 |
| Bits.AndPredecessor | js/src/jsbit.h:72-75 | n & (n-1) is zero exactly for powers of two |
| Bits.AndMask | js/src/jsarena.h:103-109 | Masking with 2^k-1 takes the remainder by 2^k |
| ArenaLayout.PoolModulus | js/src/jsarena.c:80-82 | The mask that JS_InitArenaPool computes belongs to the least power of two not below the requested alignment |
| ArenaLayout.ModulusIsUnique | js/src/jsarena.c:80-82 | There is only one such power of two |
| ArenaLayout.MaskRoundsDown | js/src/jsarena.h:103-109 | For a power of two the mask expression is rounding down |
| ArenaLayout.MasksCombine | js/src/jsarena.c:142-147 | Or-ing the pool mask with the pointer mask gives the mask of the larger alignment |
| ArenaLayout.OversizedLayout | js/src/jsarena.c:96-153 | For every power-of-two alignment and every block address: the base of an oversized arena is aligned for the pool and for a pointer, the back-pointer slot lies wholly between the header and the base, and at least the requested bytes remain but no usable room beyond |
| ArenaLayout.OrdinaryLayout | js/src/jsarena.c:179-223 | An ordinary arena has at least the requested size behind its aligned base, and less than one alignment more |
| ArenaLayout.ReallocAssertExactly | js/src/jsarena.c:283-286 | The assertion of JS_ArenaRealloc that avail does not pass the limit holds for every address of the block if and only if the new size is aligned |
| ArenaLayout.AlignedBlocksExactly | js/src/jsarena.c:283-286 | For blocks at multiples of malloc's alignment it always holds if and only if rounding up the size adds no more than the remainder of the header space by the smaller of that alignment and the pool's |
| ArenaLayout.UsualBlocksFit | js/src/jsarena.c:283-286 | So it holds for every size with a pool alignment of 4, 8 or 16 and blocks aligned as much |
| ArenaLayout.EndsOutside | js/src/jsarena.c:283-286 | An input that breaks it: a pool alignment of 16, a block at 8, and one byte |
| ArenaModel.FirstBaseExactly | js/src/jsarena.c:83-85 | The pool address and the alignment let another arena have the base of the embedded first one if and only if that base does not lie below every base behind the pool; with an alignment up to 16 it never happens |
| Arena.SameBaseMisleadsRelease | js/src/jsarena.h:182-196 | Where it happens, releasing to a mark made in the empty pool leaves the current arena linked, current and empty, and the pool is not the one that was marked |
| Arena.BasesCollide | js/src/jsarena.c:83-85 | It does happen: with an alignment of 64, a pool at 20 and an arena at 48 |
| ArenaModel.HeadersAreApart | js/src/jsarena.c:142-223 | No arena header, in the chain or on the freelist, and no back-pointer word meets an allocation or another header or back-pointer word |
| ArenaSteps.GrossIsExact | js/src/jsarena.c:179-183 | A block size that has not wrapped below the request has not wrapped at all |
| ArenaSteps.MadeFits | js/src/jsarena.c:179-223 | The request fits into the arena made for it, which is oversized exactly when the request exceeds arenasize, and then has no usable room left |
| ArenaSteps.MadeExactly | js/src/jsarena.c:96-183 | The size of the block asked for, and where the base lies in it: the first aligned place behind the header, or the last one in the space for header, back-pointer and slop |
| ArenaSteps.AlignWordCovers | js/src/jsarena.h:103-131 | Rounding a request up covers it if and only if the sum does not wrap around the address space |
| ArenaSteps.GrowCoversExactly | js/src/jsarena.h:147-165 | Rounding up the sum of a size and an increment covers it if and only if neither the sum nor the rounding wraps around |
| Arena.WrappedGrowthStays | js/src/jsarena.h:147-165 | If one wraps, growing the last allocation of the current arena succeeds in place, the cursor does not advance, and less is held than was asked for |
| Arena.WrappedGrowthTakesBack | js/src/jsarena.h:147-165 | An input: eight bytes grown by 2^32-8 put the cursor back to where the eight bytes begin |
| Arena.WrappedCopyExactly | js/src/jsarena.c:298-313 | Away from the cursor the bytes copied overrun the new allocation if and only if only the rounding wraps, or the wrapped sum is rounded to less than the old size |
| Arena.WrappedCopyOverruns | js/src/jsarena.c:298-313 | Then the bytes behind the cursor are overwritten with those of the old allocation |
| Arena.WrappedCopyExample | js/src/jsarena.c:298-313 | An input: sixteen bytes grown by 2^32-8 are copied into eight |
| Arena.WrappedReallocExactly | js/src/jsarena.c:241-264 | For an oversized allocation the assertion that more than arenasize bytes are asked for holds if and only if the wrapped sum exceeds arenasize; then the allocation becomes smaller |
| ArenaSteps.CoveredOutcome | js/src/jsarena.h:147-165 | When nothing wraps, what the code does is a step that grows, with room for all that was asked for |
| ArenaSteps.GrowOutcomeIs | js/src/jsarena.h:147-165 | Which of the three ways growing takes, and what each leaves of the cursor, the arenas and the allocations, in terms of the current arena and the sizes alone |
| ArenaSteps.ClaimStepKeepsInv | js/src/jsarena.c:177-224 | Making an arena of fresh memory or of a freelist block and linking it last keeps the invariant |
| ArenaSteps.AllocKeepsInv | js/src/jsarena.c:156-233 | Allocating keeps the invariant in each of its outcomes, and what it returns is one new allocation, aligned and at a cursor |
| ArenaSteps.GrowKeepsInv | js/src/jsarena.c:236-313 | Growing keeps the invariant in each of its three ways: the allocation has its new size and its old contents, every other one keeps its size and its bytes, and a failure changes at most which arena is current |
| ArenaSteps.MoveOwnsArena | js/src/jsarena.c:254-257 | When nothing wraps and JS_ArenaRealloc is called, the allocation has its arena to itself and more than arenasize bytes are asked for, as its first two assertions say |
| ArenaSteps.FreeKeepsInv | js/src/jsarena.c:378-439 | Freeing the last allocation of an arena, and with it an arena left empty, keeps the invariant |
| Arena.ArenaPool.constructor | js/src/jsarena.c:71-94 | A new pool satisfies the invariant, and its current arena is its last |
| Arena.ArenaPool.ArenaAllocate | js/src/jsarena.c:156-233 | The slow path: the request is placed in the first arena with room from the current one on, or in a claimed one when there is none, fresh memory being used only when no free block fits exactly; it fails only if there is no room, no free block fits exactly, and malloc answered 0; the pointer structure represents the outcome |
| Arena.ArenaPool.Claim | js/src/jsarena.c:177-224 | The first block of the freelist that has exactly the size asked for, or, when there is none, the one from malloc, is laid out and linked last with its back-pointer; it fails only if no free block fits exactly and malloc answered 0 |
| Arena.ArenaPool.TakeFree | js/src/jsarena.c:185-201 | The search of the freelist finds nothing if and only if no block has exactly the size, and otherwise unlinks the first one that has |
| Arena.ArenaPool.Allocate | js/src/jsarena.h:131-142 | The inline fast path or the slow path, with the same outcome, and with failure under the same condition |
| Arena.ArenaPool.ArenaRealloc | js/src/jsarena.c:236-295 | The arena that the allocation has to itself is moved; the bytes arrive, as many as there is room for, nothing outside the blocks and the bytes moved changes, and the links and back-pointers of both neighbours are right again, whenever the code's own assertions hold |
| Arena.ArenaPool.ArenaGrow | js/src/jsarena.c:298-313 | For any two words: moves the oversized arena, or copies the bytes into a new allocation of what the sum comes to |
| Arena.ArenaPool.Grow | js/src/jsarena.h:147-165 | For any two words: grows in place if the allocation ends at the cursor and there is room, by realloc if it then has the arena to itself or is oversized, and by a copy otherwise; it is a step that grows, and keeps the invariant, when nothing wraps around |
| Arena.ArenaPool.GrowInline | js/src/jsarena.h:147-160 | The part that needs no call, for all sizes, in word arithmetic |
| Arena.ArenaPool.FreeAllocation | js/src/jsarena.c:378-439 | Freeing the last allocation of an arena retracts the cursor, or unlinks and frees the arena wherever it is in the chain and re-points the next one's header |
| Arena.ArenaPool.LinkToEnd | js/src/jsarena.c:392-414 | The search by end address finds the one arena that holds the allocation |
| Arena.ArenaPool.ArenaRelease | js/src/jsarena.c:361-375 | The search finds the one arena of the mark, retracts its cursor and frees all arenas behind it |
| Arena.ArenaPool.Release | js/src/jsarena.h:182-196 | The inline release, with the same outcome |
| Arena.ArenaPool.ReleaseInline | js/src/jsarena.h:182-191 | Its part that needs no call, for every current arena |
| Arena.ArenaPool.FreeTail | js/src/jsarena.c:338-343 | The freeing loop of FreeArenaList empties the chain behind the head and makes the head current |
| Arena.ArenaPool.FreeArenaPool | js/src/jsarena.c:441-446 | All arenas but the first go to the freelist in their order |
| ArenaModel.ClaimKeepsInv | js/src/jsarena.c:177-224 | A claimed arena shares no memory with any other |
| ArenaModel.BumpKeepsInv | js/src/jsarena.c:229-232 | Advancing a cursor keeps all allocations aligned, inside their arena and disjoint |
| ArenaModel.GrowInPlaceKeepsInv | js/src/jsarena.h:147-160 | So does growing in place |
| ArenaModel.MoveKeepsInv | js/src/jsarena.c:236-295 | So does moving an arena, because an oversized arena leaves no usable room to anyone else |
| ArenaModel.RetractKeepsInv | js/src/jsarena.c:406-411 | So does giving back the last allocation of an arena |
| ArenaModel.RemoveKeepsInv | js/src/jsarena.c:417-438 | So does freeing an arena in the middle of the chain |
| ArenaModel.TruncateKeepsInv | js/src/jsarena.c:361-375 | So does releasing to a mark |
| ArenaModel.FreeAllKeepsInv | js/src/jsarena.c:345-357 | So does handing all arenas to the freelist |
| ArenaModel.AddressIdentifiesArena | js/src/jsarena.c:365-374 | An address between base and limit, both included, belongs to at most one arena |
| ArenaModel.WholeArenaIsAlone | js/src/jsarena.c:241-264 | An allocation from the base to the cursor has its arena to itself |
| ArenaLinks.CoupledClaim | js/src/jsarena.c:213-224 | Linking a claimed arena keeps the chain, the freelist and every back-pointer |
| ArenaLinks.CoupledMove | js/src/jsarena.c:269-293 | A moving realloc keeps them: the predecessor's link and the next arena's header are re-pointed |
| ArenaLinks.CoupledRemove | js/src/jsarena.c:424-438 | So does freeing an arena in the middle |
| ArenaLinks.CoupledReclaim | js/src/jsarena.c:185-201 | So does taking a block from the freelist |
| ArenaLinks.CoupledFreeAll | js/src/jsarena.c:345-357 | So does putting the whole chain in front of the freelist |
| ArenaLinks.BasesDiffer | js/src/jsarena.c:142-153 | The bases of different arenas differ, so their back-pointer slots do |
| ArenaRuns.StepKeepsInv | js/src/jsarena.c:156-446 | Allocating, growing, freeing, releasing and freeing the pool keep the invariant, and the current arena stays the last one, whatever malloc and realloc answer |
| ArenaRuns.RunKeepsInv | js/src/jsarena.c:156-446 | So does every run, by induction from its first state alone |
| ArenaRuns.RunIsSafe | js/src/jsarena.c:71-446 | In every state of every run from a new pool every allocation is aligned, lies in the used part of one arena, and is disjoint from every other one |
| ArenaRuns.StepKeepsBytes | js/src/jsarena.c:156-446 | No operation changes a byte of an allocation that survives it without being its target |
| ArenaRuns.RunTakesBytesAlong | js/src/jsarena.c:156-446 | Over any run an allocation keeps its bytes however often it is grown and moved, as far as the growing takes them along |
| ArenaRuns.RunKeepsBytes | js/src/jsarena.c:156-446 | Over any run, an allocation that stays live and is not itself written, grown or freed keeps its size and every byte |
| ArenaRuns.EarlierWay | js/src/jsarena.c:298-313 | An allocation in an arena before the current one grows by realloc if it exceeds arenasize, and by a copy if not |
| ArenaRuns.StepKeepsMark | js/src/jsarena.h:167-196 | An operation that respects a mark leaves it good, and what lies before it stays, but for what is freed; a moved allocation stays before the mark under its new address, and one grown by a copy does not |
| ArenaRuns.GrowthOverMark | js/src/jsarena.h:147-165 | Growing in place what ends at the mark is barred with reason: the mark then lies inside it and is no mark |
| ArenaRuns.RunKeepsMark | js/src/jsarena.h:167-196 | So does any run of such operations |
| ArenaRuns.MarkTaken | js/src/jsarena.h:167 | A mark just taken lies behind every allocation |
| ArenaRuns.ReleaseRestoresMark | js/src/jsarena.c:320-375 | Mark, any run that respects it, release: the cursor and the current arena are those of the mark, and the allocations are exactly what the run has left of those held at the mark: less those freed, moved ones under their new address with their new size, and without those grown by a copy |
| ArenaRuns.DoAllocate | js/src/jsarena.c:156-233 | The allocating method takes exactly the step that the runs are made of, and keeps the current arena last |
| ArenaRuns.DoGrow | js/src/jsarena.c:236-313 | So does the growing method, when nothing wraps around |
| ArenaRuns.DoFree | js/src/jsarena.c:378-439 | So does the freeing method |
| ArenaRuns.DoRelease | js/src/jsarena.c:361-375 | So does the releasing method |
| ArenaRuns.DoFreePool | js/src/jsarena.c:441-446 | So does freeing the pool |
| ArenaRuns.DoWrite | js/src/jsarena.c:156-446 | So does a write of the client into one of its allocations |
| ArenaRuns.DoRead | js/src/jsarena.c:156-446 | So does reading a byte |
| ArenaRuns.DoMark | js/src/jsarena.h:167 | So does taking a mark |
| ArenaRuns.RunExtends | js/src/jsarena.c:156-446 | A run goes on with any step from its last state |
| ArenaScripts.BlockIsFresh | js/src/jsarena.c:185-211 | A block that an honest malloc or realloc answers shares no memory with the arenas and the freelist that the pointers represent |
| ArenaScripts.AnyAnswer | js/src/jsarena.c:203-205 | Every block apart from the others is what some honest malloc answers |
| ArenaScripts.ServeGrow | js/src/jsarena.c:236-313 | A request to grow, with what realloc answers for the arena that the code finds |
| ArenaScripts.Serve | js/src/jsarena.c:156-446 | Every allowed request is served by the pointer code as an operation of a run that does what was asked and returns its result |
| ArenaScripts.ServeAll | js/src/jsarena.c:156-446 | For every program that sees the results of its requests, if each request is allowed whatever malloc and realloc have answered, and for every honest malloc and realloc, the pointer code takes the pool through a run of the operations it asks for |
| ArenaScripts.ServeNew | js/src/jsarena.c:71-446 | So a new pool serves any such program, and in every state on the way all allocations are aligned, in place and disjoint |
| ArenaScripts.ServeAndRelease | js/src/jsarena.h:167-196 | Mark, serve any such program that respects the mark, release: the cursor and the current arena come back, and the allocations are exactly what the program has left of those that were there |
| ArenaScripts.ExampleBehaves | js/src/jsarena.c:156-446 | Such a program, on every sound pool: it allocates, grows what it got, writes, reads and frees, and minds that each allocation may fail |
| Profiler.Context.CallHook | js/jsd/jsd_step.c:112-267 | The imperative update of the profile record and of the context is the step that the runs are made of |
| Profiler.RunCharges | js/jsd/jsd_step.c:150-246 | Every well-nested run on a positive clock that never runs backwards, direct and mutual recursion included, charges each script its own time, its calls and its deepest recursion, restores the caller at each return, and leaves everything else as it was |
| Profiler.TimeIsConserved | js/jsd/jsd_step.c:150-246 | From the start, the recorded own times over all scripts sum to the durations of the outermost profiled calls; call counts, greatest recursion depths, total times and own times are those of the call tree, and nothing is left running |
| Profiler.OwnAddsUp | js/jsd/jsd_step.c:150-246 | Own times, defined on the call tree, add up to what the outermost new calls cover |
| Profiler.NewCall | js/jsd/jsd_step.c:150-243 | A timed call with its callees inside has the effect defined by the call tree |
| Profiler.OldCall | js/jsd/jsd_step.c:184-187 | A recursive or unprofiled call is charged through its callees only |
| Profiler.EnterNew | js/jsd/jsd_step.c:150-183 | Entering stops the caller's clock and starts the script's |
| Profiler.LeaveNew | js/jsd/jsd_step.c:190-242 | Leaving adds the time since the call and the own time, and gives the clock back to the caller |
| Profiler.EnterOld | js/jsd/jsd_step.c:184-187 | Entering a script that is unprofiled or running already changes nothing but its depth and the greatest depth |
| Profiler.LeaveOld | js/jsd/jsd_step.c:243-246 | Leaving it lowers the depth again and counts the call |
| Profiler.EffectsCompose | js/jsd/jsd_step.c:150-246 | Effects of calls made one after the other add up |
| DebuggerLock.NextKeepsInv | js/jsd/jsd_lock.c:134-173 | Every single statement of every thread keeps the invariant of the lock |
| DebuggerLock.RunKeepsInv | js/jsd/jsd_lock.c:134-173 | So does every interleaving |
| DebuggerLock.MutualExclusion | js/jsd/jsd_lock.c:134-173 | In every interleaving at most one thread has calls to undo; the owner holds the underlying lock, and between its calls count is its nesting depth |
| DebuggerLock.OwnerIsNullAfterAcquire | js/jsd/jsd_lock.c:143-150 | The assertion after PR_Lock always holds |
| DebuggerLock.UnlockedTestIsExact | js/jsd/jsd_lock.c:138-141 | The owner test made without holding anything succeeds exactly for the thread that has calls to undo |
| DebuggerLock.CallsCount | js/jsd/jsd_lock.c:134-173 | Each completed call changes its caller's depth by one, or is the refused unlock of a thread with nothing to undo |
| DebuggerLock.OwnerLocksAgain | js/jsd/jsd_lock.c:134-152 | A thread that has the lock gets it again in three statements of its own, whatever the others do in between |
| DebuggerLock.UnlockEnds | js/jsd/jsd_lock.c:154-172 | Undoing a call never waits: the outermost one ends after five statements of its own, any other after three, a refused one after one, and the depth is one less, or as it was |
| DebuggerLock.WaiterGetsIn | js/jsd/jsd_lock.c:145-150 | A waiting thread that gets its turn while the lock is free is in, with depth one, after two statements more |
| DebuggerLock.BlockedExactly | js/jsd/jsd_lock.c:145 | Inside a call a thread is blocked if and only if it waits for the lock while another thread holds it |
| DebuggerLock.CallEnds | js/jsd/jsd_lock.c:134-172 | Every call with nothing to wait for ends after a number of its own statements, under every schedule of the others, with the depth it promises |
| DebuggerLock.QuiescentIsFree | js/jsd/jsd_lock.c:155-173 | When every call is undone the lock is free again |
| DebuggerLock.ValidLockExactly | js/jsd/jsd_lock.c:101-108 | The debug check holds exactly when no thread is between its two writes to the lock |
| DebuggerLock.ValidLockCanFail | js/jsd/jsd_lock.c:134-152 | So a thread entering jsd_Lock can see it fail: a schedule that does it |
| Json2.QuoteText | contrib/json/json2.js:215-231 | quote gives the string with every escapable character escaped, and skipping the replacement when there is none changes nothing |
| Json2.QuoteExactly | contrib/json/json2.js:223-231 | The quoted text is made of the escapes of the characters, in their order, between two quotes |
| Json2.EscapeExactly | contrib/json/json2.js:215-231 | Letter by letter: the seven short escapes, four digits in lower case that are the character number for every other control character and the characters that are dropped or misread, and every character else as it is |
| Json2.QuoteRoundTrip | contrib/json/json2.js:215-231 | What stands between the quotes denotes the string that was quoted (ECMA-262 5th edition, section 15.12.1) |
| Json2.HexRoundTrip | contrib/json/json2.js:228 | The four padded hexadecimal digits stand for the code unit |
| JsonPrint.Printer.Str | contrib/json/json2.js:234-379 | str gives the text of the layout of ECMA-262 5th edition, section 15.12.3, for the value that toJSON methods, a replacer function or a replacer array make of what it finds, at every level; or nothing for a value without a JSON form; and restores gap.  JsonLayout.WhiteSpaceExactly and JsonMeaning.PrintedMeans say what that text is |
| JsonPrint.ReplacedExactly | contrib/json/json2.js:246-378 | That value is made of such a value for each element and for each member that is visited |
| JsonPrint.ClientIsAsked | contrib/json/json2.js:246-260 | An object is asked for its JSON form first; a replacer function is called with what comes of that, and its answer is printed |
| JsonPrint.FieldsExactly | contrib/json/json2.js:334-357 | A replacer array selects, for each string in it and in its order, the own member under that key, or else one that is found by name, or nothing; of equal keys the last one counts; without one all own members are taken |
| JsonPrint.ReplacedStays | contrib/json/json2.js:246-378 | It does not depend on how deep str may go, once that is deep enough |
| JsonPrint.PlainIsSelected | contrib/json/json2.js:246-378 | Without client code str always ends, and the value is what the replacer array selects, or the value itself |
| JsonPrint.Printer.StrArray | contrib/json/json2.js:301-332 | The array branch: null for elements without a form, brackets and line breaks around the joined parts, gap restored |
| JsonPrint.Printer.StrObject | contrib/json/json2.js:351-378 | The object branch without a replacer: members without a form are left out, gap restored |
| JsonPrint.Printer.StrSelected | contrib/json/json2.js:334-378 | The object branch with a replacer array: the members its strings find by name, inherited ones included, in its order, gap restored |
| JsonPrint.Stringify | contrib/json/json2.js:394-434 | JSON.stringify for every replacer and every space argument: n blanks are rounded up to a whole number of them, and a replacer that is no function and not like an array is an error |
| JsonPrint.IndentationExactly | contrib/json/json2.js:402-416 | A number n gives the least whole number of blanks that is not below it, a string is taken as it is, whatever its length, and anything else is no indent |
| JsonPrint.ScalarTexts | contrib/json/json2.js:264-296 | The texts of what is not taken apart and of empty containers, letter by letter; numbers that are not finite print as null |
| JsonLayout.WhiteSpaceExactly | contrib/json/json2.js:301-378 | Where white space stands in a printed text, position by position: without an indent nowhere; otherwise one blank behind each colon, a line break with one copy of the indent for each open container behind each comma and each bracket that opens something filled, one copy less in front of the closing bracket, and nowhere else |
| JsonLayout.TextExactly | contrib/json/json2.js:301-378 | The text is that of its tokens, one after the other, with white space standing for itself |
| JsonFilter.UnchangedExactly | contrib/json/json2.js:477-486 | The first stage of JSON.parse leaves alone exactly the texts without a dangerous character |
| JsonFilter.ReplaceExactly | contrib/json/json2.js:477-486 | It replaces NUL and the characters that are dropped or misread, by their escapes, and nothing else |
| JsonFilter.PassesExactly | contrib/json/json2.js:501-508 | The filter accepts exactly the texts in which, behind the three replacements, only brackets, braces, colons, commas and white space are left and rx_four finds every open bracket |
| JsonFilter.DropBracketsExactly | contrib/json/json2.js:167 | rx_four removes every open bracket if and only if only white space and open brackets stand between each of them and a colon, a comma or the start |
| JsonFilter.PairsInString | contrib/json/json2.js:165 | rx_two takes exactly the escapes that quote made |
| JsonFilter.NumberEnds | contrib/json/json2.js:166 | rx_three takes a number token whole and stops behind it |
| JsonFilter.ThirdStage | contrib/json/json2.js:501-508 | Behind the first three replacements the strings and atoms of a printed text are single close brackets and the rest is unchanged |
| JsonFilter.TokensPassExactly | contrib/json/json2.js:477-508 | Well-placed tokens pass the filter if and only if no white space between them is dangerous |
| JsonFilter.ValuePlaced | contrib/json/json2.js:234-379 | The tokens str prints are well placed: open brackets only where rx_four finds them, atoms never next to one another |
| JsonFilter.PrintedPassesExactly | contrib/json/json2.js:477-508 | For every value and every white-space indent: the printed text is left unchanged by the first stage and accepted by the filter if and only if the indent has no dangerous character or the value prints no line break |
| JsonFilter.BlanksPass | contrib/json/json2.js:402-416 | Without an indent, or with a number of blanks, the printed text is always accepted |
| JsonFilter.LineSeparatorFails | contrib/json/json2.js:477-508 | Indenting with U+2028, which is white space, gives a text that is refused |
| JsonMeaning.PrintedMeans | contrib/json/json2.js:234-379 | Read by the JSON grammar, the printed text of every value with every white-space indent means that value, up to what JSON cannot say |
| JsonMeaning.PrintingIsInjective | contrib/json/json2.js:234-379 | Values with the same text are the same as far as JSON can tell, whatever the indents |
| JsonMeaning.LexText | contrib/json/json2.js:234-379 | The tokens come back from the text |
| JsonMeaning.ReadFlat | contrib/json/json2.js:234-379 | Reading takes exactly the tokens of a value and leaves what follows |
| Values.Context.DropValue | js/jsd/jsd_val.c:272-283 | Dropping a handle frees exactly the records that the client can no longer reach, their roots with them, and leaves every other record as it was; the recursion terminates |
| Values.Context.DropProperty | js/jsd/jsd_val.c:622-633 | The same for a property, which drops its value, name and alias |
| Values.Context.RefreshValue | js/jsd/jsd_val.c:368-387 | Forgetting the caches gives up exactly the claims the value had, and clears its fields |
| Values.Context.Refresh | js/jsd/jsd_val.c:368-387 | Called by the client, it frees what only the value kept, and the value itself stays |
| Values.Context.FreeProps | js/jsd/jsd_val.c:319-331 | All listed properties are unlinked and dropped, those with handles survive |
| Values.Context.NewValue | js/jsd/jsd_val.c:249-270 | A new value with one handle and, for a collected thing, one root; on failure nothing has changed |
| Values.Context.NewProperty | js/jsd/jsd_val.c:290-317 | A property described by name, value, flags, slot and, if they say so, alias, held once; when an allocation fails everything made so far is taken back exactly |
| Values.Context.BuildProps | js/jsd/jsd_val.c:333-362 | The listed properties are those of the engine's answer, in order and unheld; when one fails the heap, the roots and the ownership are as before but for the flag |
| Values.Context.GetRelative | js/jsd/jsd_val.c:501-566 | Prototype, parent and constructor: the cached value or a new one, owned by the value and held once more; asked for once only; no other record changes but for the count of the one returned |
| Values.Context.GetPart | js/jsd/jsd_val.c:588-607 | Name, value and alias of a property, held once more, and nothing else changed |
| Values.Context.ListProps | js/jsd/jsd_val.c:397-399 | The list is there already, or is built now as the engine describes it; then the value has its list and one flag more, and no other field of any record changes |
| Values.Context.IterateProperties | js/jsd/jsd_val.c:411-431 | A walk visits the listed properties in order, each held once more, and changes nothing else but the list and its flag when it is first made |
| Values.Context.CountProperties | js/jsd/jsd_val.c:392-409 | The count of the listed properties; no handle changes, and no field of any record but for the list and its flag when it is first made |
| Values.Context.GetValueProperty | js/jsd/jsd_val.c:433-497 | The first listed property whose name converts to the name asked for, the list being the one the engine describes if it is made now; a property that is in no list, or none, comes only if no listed name converts to it, and never if some listed name is that text; the new property wraps what the engine found, or the exception, or undefined, and says so in its flags, computed as the code does; all handles of the walk are returned, and besides the list and its flag only the cached strings of the names in it may be new |
| Values.Context.FindListed | js/jsd/jsd_val.c:449-456 | The walk over the list finds the first property whose name converts to the name asked for; where memory is short a name that has to be converted may be passed over |
| Values.Context.IsNamed | js/jsd/jsd_val.c:452-453 | The name of one property is converted, and found to be the name asked for if and only if that is what it converts to |
| ValueRecords.HintIs | js/jsd/jsd_val.c:470-497 | The property made up for what is in no list: its name, its value, and every one of its flags, in terms of what the engine answered |
| ValueRecords.FlagsFoundExactly | js/jsd/jsd_val.c:492-494 | Of the engine's attributes all arrive in those flags if and only if there is at most one |
| ValueRecords.PermanentIsLost | js/jsd/jsd_val.c:492-494 | A property that is enumerable and permanent is reported as enumerable only |
| Values.Context.GetValueString | js/jsd/jsd_val.c:201-224 | The string is cached, and rooted unless the value is itself a string |
| ValueRecords.LiveExactly | js/jsd/jsd_val.c:249-387 | In every reachable state a record is live if and only if the client holds it or something that owns it, and its count is the handles plus one when it is owned |
| ValueRecords.NothingLeft | js/jsd/jsd_val.c:272-283 | With no handles left there is no record and no root |
| ValueRecords.LastOne | js/jsd/jsd_val.c:272-283 | At the last reference the record's claims pass to the freeing call |
| ValueRecords.OneLess | js/jsd/jsd_val.c:272-283 | Any other reference frees nothing |
| ValueRecords.ListGone | js/jsd/jsd_val.c:349-354 | Freeing a half-built list restores heap, roots and ownership |
| ValueRecords.HeapIsDetermined | js/jsd/jsd_val.c:249-387 | Counts and roots are determined by who owns what and by the handles |
| Ownership.AllAnchored | js/jsd/jsd_val.c:272-283 | Counting references leaves no garbage: what has a count is reachable for the client |
| Ownership.DropLast | js/jsd/jsd_val.c:272-283 | Freeing a record and releasing its claims one by one is dropping what became unreachable |
| Ownership.PruneLate | js/jsd/jsd_val.c:380-386 | Dropping claims one after the other is dropping them all at once |
| Ownership.PruneUndoes | js/jsd/jsd_val.c:313-316 | What a failed construction made does not outlast its drop |
| Ownership.DroppingAllLeavesNothing | js/jsd/jsd_val.c:272-283 | Dropping all handles in whatever order leaves nothing live |
| SourceText.SourceManager.NewSourceText | js/jsd/jsd_text.c:378-414 | The new item is the only current one for its URL and an earlier one is retired empty; an item under evaluation blocks this, and each failure has its exact outcome |
| SourceText.SourceManager.AppendSourceText | js/jsd/jsd_text.c:417-454 | The bytes are appended and nothing else changes; an item being evaluated ignores them, a superseded one is freed, and out of memory the item is emptied and retired with status cleared |
| SourceText.SourceManager.AppendUCSourceText | js/jsd/jsd_text.c:457-495 | Appending in chunks of 1024 truncated characters comes to the same as appending all of them at once |
| SourceText.SourceManager.AppendText | js/jsd/jsd_text.c:71-112 | The buffer grows when needed and holds the old text followed by the new |
| SourceText.SourceManager.AddFullSourceText | js/jsd/jsd_text.c:499-521 | Exactly a new source text for the URL followed, if there is one, by one append of the whole text with status completed; it succeeds if and only if both do |
| SourceText.SourceManager.ClearText | js/jsd/jsd_text.c:57-69 | The text is gone and the item has a new alter count |
| SourceText.SourceManager.ClearSourceText | js/jsd/jsd_text.c:306-314 | Only a text that has stopped arriving is cleared |
| SourceText.SourceManager.FindSourceForURL | js/jsd/jsd_text.c:276-289 | The current item for a URL, or none exactly if there is none |
| SourceText.SourceManager.IncrementAlterCount | js/jsd/jsd_text.c:340-343 | The count returned differs from every other item's |
| SourceText.SourceManager.SetDoingEval | js/jsd/jsd_text.c:524-567 | The flag of the current item for the URL, and nothing else |
| SourceText.SourceManager.MoveToRemovedList | js/jsd/jsd_text.c:162-168 | The item is emptied and moves to the head of the removed list |
| SourceText.RetiredIsGood | js/jsd/jsd_text.c:162-168 | Retiring keeps: one list per item, one current item per URL, no text in removed items, distinct alter counts below the counter |
| SourceText.AddedIsGood | js/jsd/jsd_text.c:114-153 | So does adding an item for a URL that has no current one |
| SourceText.ForgottenIsGood | js/jsd/jsd_text.c:170-175 | So does freeing an item |
| SourceText.RewrittenIsGood | js/jsd/jsd_text.c:57-69 | So does rewriting an item with a new alter count |
| SourceText.OnlyOne | js/jsd/jsd_text.c:276-289 | At most one item is current for a URL |
| SourceText.ChunkStep | js/jsd/jsd_text.c:476-486 | After any number of chunks the outcome is that of one append of what they hold |
| SourceText.NormalizedTwice | js/jsd/jsd_text.c:217-234 | Normalizing a URL twice is normalizing it once if and only if no two more slashes follow file:// |
| SourceText.NormalizedIs | js/jsd/jsd_text.c:217-234 | A URL that starts with file:// in any letter case is kept as file: and what follows, and every other URL as it is |
| SourceText.KeptTogetherExactly | js/jsd/jsd_text.c:195-234 | Which texts are kept under one URL: those of file:// URLs that go on alike, whatever the case of their first letters; the URL file: without slashes if what follows is the same; and every other URL only with itself |
| SourceText.SupersededPlainly | js/jsd/jsd_text.c:378-414 | What a new source text leaves, field by field: the new item, the retired one, and every other item as it was |
| SourceText.AppendedPlainly | js/jsd/jsd_text.c:417-454 | What is left, field by field, of an item that gets no more text |
| SourceText.NormalizedTwiceDiffers | js/jsd/jsd_text.c:217-234 | file:////x is normalized to file://x, and that to file:x |
| SourceRuns.TextIsWhatWasAppended | js/jsd/jsd_text.c:114-567 | In every state of every run of the calls, from the beginning, the lists, URLs and counts are in order, and the text of each item is the concatenation of what was appended to it since it was last cleared |
| SourceRuns.StepKeepsGood | js/jsd/jsd_text.c:114-567 | Every call keeps one list per item, one current item per URL, empty removed items and distinct counts |
| SourceRuns.StepKeepsLog | js/jsd/jsd_text.c:114-567 | Every call changes the texts as the log of appends says, for all items at once |
| SourceRuns.DoNew | js/jsd/jsd_text.c:378-414 | The method takes exactly the step that the runs are made of |
| SourceRuns.DoAppend | js/jsd/jsd_text.c:417-454 | So does the appending method |
| SourceRuns.DoAppendUC | js/jsd/jsd_text.c:457-495 | So does the chunked one, with all the truncated characters at once; without memory it may take no step |
| SourceRuns.DoAddFull | js/jsd/jsd_text.c:499-521 | Adding a full text is two steps |
| SourceRuns.DoClear | js/jsd/jsd_text.c:306-314 | Clearing is a step |
| SourceRuns.DoCount | js/jsd/jsd_text.c:340-343 | Counting an alteration is a step |
| SourceRuns.DoEval | js/jsd/jsd_text.c:524-567 | Starting or ending an evaluation is a step |
| Formatters.FormatMap.TryFormatter | js/src/jsapi.c:136-151 | The formatter chosen is that of the longest registered format that the text starts with, whatever the order of registration |
| Formatters.FormatMap.Add | js/src/jsapi.c:408-434 | Adding binds the format, replacing an earlier formatter, and fails only for a new format without memory |
| Formatters.FormatMap.Remove | js/src/jsapi.c:437-452 | Removing unbinds exactly this format |
| Formatters.FirstIsLongest | js/src/jsapi.c:416-420 | In a list kept longest first the first match is the longest |
| Formatters.LongestIs | js/src/jsapi.c:136-151 | The longest match, defined on the table of formats, is what its name says |

## Left out

General:
- Rooting of values and atoms, locking around the freelist and the debugger's lists, statistics, and debug fill patterns.
- What other code answers is a parameter or an arbitrary choice: `malloc` and `realloc`, the clock, the collector's acceptance of roots, property lookups of the engine, `js_ValueToString`.
- Values, properties, source items and arenas are entries of maps that a class keeps, not objects of their own: a pointer is a key, freeing removes the entry, and a dangling pointer is a missing key.  A freed value or source item does not get its key back, so reuse of an address is not modelled for them; for arenas it is.
- A C function with a loop in the middle is sometimes a method with helper methods for its loops; its contract is on the whole.

Arrays:
- Getters, setters, prototypes, and comparison functions that throw, change the array, or answer the same question differently at different times; `indexOf`, `join`, `toSource`; the branches for JavaScript 1.2.
- Property ids other than array indices and 2^32-1 are not in the property map; an array is keyed by the numbers that `IndexToId` turns into ids (`ArrayIndex.IdsAreDistinct`).
- Position arguments are integers; the conversion of doubles is not modelled.
- ArraySort.Sort: the comparison function is a function of its two arguments; conversion to strings cannot fail and does not depend on time.
- ArraySort.InitArrayElements: the assertion that the vector has no hole is a precondition, met by its caller in every case.

Arena:
- `JS_ARENA_DESTROY` breaks the rule that the current arena is the last one, by design; `JS_ArenaFinish` and `JS_FinishArenaPool` add nothing to `FreeArenaPool` but the return of memory.
- The freelist holds blocks of this pool only.
- The pool's alignment is at least a pointer's, its arena size is a multiple of it, and no other arena can have the base of the embedded first one (`ArenaModel.FirstBaseExactly` says when, `Arena.SameBaseMisleadsRelease` what happens otherwise); sizes are those of a 32-bit build.
- Arena.ArenaPool.ArenaRealloc: the code's own assertions hold; `ArenaSteps.MoveOwnsArena`, `Arena.WrappedReallocExactly` and `ArenaLayout.AlignedBlocksExactly` say when they do.
- Arena.ArenaPool.FreeAllocation: for the last allocation of its arena, which is not empty; the code searches by end address, and other calls have no defined outcome.
- ArenaScripts.ServeAll: the program is deterministic, and what `malloc` and `realloc` answer depends on the number of the request, the blocks taken and the size; for all of them, that is no restriction on a single run.
- ArenaRuns.ReleaseRestoresMark: for marks taken with `JS_ARENA_MARK`.  What the run may not do: free, grow in place or reallocate in the mark's own arena what was allocated before the mark (`ArenaRuns.GrowthOverMark`), release to an earlier mark, or free the pool; earlier and later arenas may be grown, moved and freed.

Profiler:
- Least and greatest execution times of single calls, the conversion to milliseconds, user hooks, clearing of profile data in mid-run, and the wrap-around of counters; profiling flags are constant during a run.

Values and texts:
- Function and class names, and the simple type tests of values.
- A cursor of `jsd_IterateProperties` that points to a property no longer listed.
- That a property is in no list when it is freed is not stated as an assertion; the count says it, since a listed property has a reference for the list.
- The wrap-around of buffer sizes and alter counts; lengths of 2^31 characters and more; the lock that `jsd_NewSourceText` keeps when the URL cannot be copied; `jsd_DestroyAllSources`, which frees every item in turn.

Lock:
- Fairness, and `jsd_IsLocked`.

JSON:
- `eval`, the reviver, and the text of numbers, which are taken as tokens that match the number pattern.
- JsonPrint.Printer.Str: `toJSON` methods and replacer functions are functions of their arguments, which return and change nothing; if their answers nest without end, so does str.
- JsonPrint.Stringify: an infinite number of blanks.
- JsonMeaning.PrintedMeans: numbers are kept as texts, and a member that occurs twice is kept twice.

Formatters:
- The call of the formatter and the error report when none is found; the linked list is a sequence of entries.
