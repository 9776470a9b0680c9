# Verified model of a C++ data-structures and algorithms collection

This project is a Dafny model of the core containers and string-search routines of a small C++ teaching library:

- **Red-black tree** (`rbtree.h`): an ordered key-value map.
  - Each node records its parent and is painted RED or BLACK.
  - A shared BLACK sentinel `nil_` stands for every empty subtree.
  - It is modelled in `rb_tree.dfy`.
- **AVL tree** (`avl_tree.h`): an ordered key-value map.
  - Each node records its parent and a balance factor (left height minus right height).
  - `L_Balance` / `R_Balance` rebalance a subtree in place.
  - The header also holds a table of the fewest nodes a tree of each depth can have.
  - It is modelled in `avl_tree.dfy`.
- **Skip list** (`skiplist.h`): an ordered key-value map kept as a tower of sorted linked lists.
  - Each node draws its height from `rand()`.
  - It is modelled in `skip_list.dfy`.
- **Binary min-heap** (`heap.h`): a heap over a growable array.
  - It is modelled in `heap.dfy`.
- **Memory pools** (`memorypool.h`): two fixed-size allocators.
  - `BitmapMemPool` hands out units tracked in a two-level bitmap.
  - `LinkListMemPool` bumps an offset and keeps a free list.
  - Both are modelled in `memory_pool.dfy`.
- **Knuth–Morris–Pratt search** (`kmp.cpp`): two partial-match-table builders, `GetNext`, and two searches.
  - It is modelled in `kmp.dfy`.
- **Boyer–Moore search** (`boyer-moore.cpp`): the bad-character table, the suffix table, the good-suffix table and the search loop.
  - It is modelled in `boyer_moore.dfy`.

The two searches share `occurrences.dfy`, which defines where a pattern first occurs in a text.

The two balanced trees share `binary_trees.dfy`:

- **The heap of node records.** Node records live in a map from addresses to cells (`Arena`), and a pointer is an address.
- **The ghost tree.** The tree the records hold is a ghost datatype `Tree` together with a zipper `Path` for the way down to a node.
- **`Focused`.** The predicate `Focused(nodes, root, p, t)` states that the records below `root` hold exactly the ghost tree, seen from position `p`.
- **How the methods are specified.** Every pointer-rewriting method states which ghost tree its records hold afterwards. Lemmas about the ghost trees carry the algorithmic argument: rotations keep the in-order sequence, the fix-ups restore the colour rules, and the retraces restore the balance factors.

The classes keep the source's state as fields:

- `RBTree`: records, root, size, sentinel.
- `AVLTree`: records, `avl_head`, `size`.
- `SkipList`: node records, `level`, `update`.
- `Heap`: the node array, `count_`, `size_`.
- `Bitmap`: the two bitmap arrays.
- The pool classes: their chunk lists.

Their methods update those fields in place. Allocation failures and `rand()` results are parameters.

## Model

| member | source | states |
|---|---|---|
| Occurrences.FirstMatchFrom | kmp.cpp:92-131 | the result is -1 or an index at or after `q` where the pattern occurs, and no occurrence lies between `q` and it: the first occurrence both searches must report |
| Kmp.At | kmp.cpp:25 | a C string read at index `i` gives its character below the length and the NUL terminator at the end |
| Kmp.LongestBorderUpTo | kmp.cpp:16-32 | the result is a border (proper prefix that is also a suffix) of at most `k` characters, and no longer border up to `k` exists |
| Kmp.LpsIsLongestBorder | kmp.cpp:16-32 | the partial-match value of a non-empty string is a border shorter than the string, and every border is at most that long |
| Kmp.LpsUnique | kmp.cpp:16-32 | any border that no border exceeds is the partial-match value |
| Kmp.PartialMatchTableBounds | kmp.cpp:16-63 | each table entry `t[i]` lies in [0, i] |
| Kmp.BorderExtend | kmp.cpp:35-63 | a string extended by `c` has a border of length k+1 exactly when k is a border followed by `c` |
| Kmp.BorderOfBorder | kmp.cpp:35-63 | the borders shorter than a border `m` are exactly the borders of the prefix of length `m`: the fall-back of the incremental builders |
| Kmp.ScanMatch | kmp.cpp:47-52 | when the next character extends the current border `m`, the new entry is m+1 and the builder's invariant holds one step on |
| Kmp.ScanMissAtZero | kmp.cpp:54-57 | a mismatch with no border matched gives entry 0 |
| Kmp.ScanFallBack | kmp.cpp:58-61 | falling back to the border of the matched prefix keeps the builder's invariant |
| Kmp.ShiftFails | kmp.cpp:22-28 | a shift whose character-by-character comparison hits a mismatch rules out the border of that length |
| Kmp.ShiftMatches | kmp.cpp:22-30 | the first shift that matches through `i`, after all longer borders were ruled out, gives the longest border |
| Kmp.MatchRun | kmp.cpp:24-26 | the inner loop counts the characters shift `j` matches before the first mismatch, at most i-j+1 |
| Kmp.BorderByShifts | kmp.cpp:22-30 | the shift loop for entry `i` gives the longest border of `pattern[..i+1]` |
| Kmp.CreatePartialMatchTable1 | kmp.cpp:16-32 | the brute-force builder leaves the partial-match table of the pattern in `next[..len]` and the rest of the array unchanged |
| Kmp.CreatePartialMatchTable2 | kmp.cpp:35-63 | the incremental builder leaves the same partial-match table, with the rest of the array unchanged |
| Kmp.SearchAdvance | kmp.cpp:105-110 | a matching character extends the match, and a full match ends the search at the first occurrence |
| Kmp.SearchSkip | kmp.cpp:111-115 | a mismatch with nothing matched moves past the text character without skipping an occurrence |
| Kmp.SearchFallBack | kmp.cpp:117-123 | after a mismatch with `m` matched, continuing from the longest border of the match skips no occurrence |
| Kmp.SearchResume | kmp.cpp:178-182 | GetNext's -1 entry restarts the match after the current text character without skipping an occurrence |
| Kmp.SearchFound | kmp.cpp:128-129 | a full match at `pos` is the first occurrence, at `pos - len` |
| Kmp.SearchExhausted | kmp.cpp:130-131 | a text exhausted with only a proper prefix matched holds no occurrence, so -1 is right |
| Kmp.KmpGrep | kmp.cpp:92-131 | for every non-empty pattern the result equals the first occurrence of the pattern in the text, or -1 |
| Kmp.ScanRestart | kmp.cpp:145-161 | when no border of `p[..j]` is followed by `p[j]`, `p[..j+1]` has no non-empty border |
| Kmp.NextAdvance | kmp.cpp:147-152 | after `k == -1` or a match, `next[j+1] = k+1` is the longest border of `p[..j+1]`, and the scan state holds one step on |
| Kmp.NextFallBack | kmp.cpp:160-161 | after a mismatch, `k = next[k]` is smaller and keeps the scan state |
| Kmp.GetNext | kmp.cpp:135-163 | `next[0] = -1` and `next[j]` is the longest border of `p[..j]` for 1 ≤ j ≤ len; it writes len+1 entries, and a table of only len entries overruns |
| Kmp.GetNextRound | kmp.cpp:147-161 | one pass of the loop keeps the scan state and the entries written so far, advancing `j` or lowering `k` |
| Kmp.KmpSearchTable | kmp.cpp:172-174 | with the `patternLen`-entry table KmpSearch allocates, GetNext's last write falls outside the array, for every non-empty pattern |
| Kmp.KmpSearch | kmp.cpp:166-198 | with a table of len+1 entries, the result equals the first occurrence of the pattern, or -1: the same answer as KmpGrep |
| BoyerMoore.LastIndexOf | boyer-moore.cpp:10-19 | the last index of `c` in the pattern, or -1 when it does not occur |
| BoyerMoore.BadCharTable | boyer-moore.cpp:10-19 | a table with one entry per byte value; what each entry holds is stated by BoyerMoore.BadCharRule (the last index of the byte in the pattern, or -1) |
| BoyerMoore.BadCharRule | boyer-moore.cpp:10-19 | `bmBC` holds, for each byte, its last position in the pattern, or -1 when it does not occur |
| BoyerMoore.BadCharacterMove | boyer-moore.cpp:82-86 | the bad-character shift is at least 1 and at least the distance to the last earlier copy of the mismatched byte |
| BoyerMoore.BadCharacterMoveSafe | boyer-moore.cpp:82-86 | every shift shorter than the bad-character move places a different pattern byte under the mismatched text byte |
| BoyerMoore.CommonSuffixFromLongest | boyer-moore.cpp:22-34 | the length of the common suffix of `p[..i+1]` and `p`, and it cannot be extended |
| BoyerMoore.CommonSuffixLongest | boyer-moore.cpp:22-34 | the common-suffix length at `i` is a common suffix of `p[..i+1]` and `p`, and the bytes just before it differ |
| BoyerMoore.CommonSuffixUnique | boyer-moore.cpp:22-34 | a suffix length that cannot be extended is the common-suffix length |
| BoyerMoore.Suffix | boyer-moore.cpp:22-34 | `suffix[i]` is the common-suffix length of `p[..i+1]` and `p`, the last entry is len, and each entry lies in [0, i+1] |
| BoyerMoore.PrefixShift | boyer-moore.cpp:50-59 | the case-2 shift is len, or a prefix-suffix shift between 1 and len-1-lo |
| BoyerMoore.GoodSuffixTable | boyer-moore.cpp:37-72 | the good-suffix table has one entry per pattern position; what each entry holds is stated by BoyerMoore.GoodSuffixShiftBounds, BoyerMoore.GoodSuffixRule and BoyerMoore.GoodSuffixRuleCorrected |
| BoyerMoore.GoodSuffixShiftBounds | boyer-moore.cpp:37-72 | every good-suffix shift lies in [1, len] |
| BoyerMoore.PrefixShifts | boyer-moore.cpp:44-59 | cases 3 and 2 leave the prefix-suffix shift at every position |
| BoyerMoore.LowerShortShifts | boyer-moore.cpp:52-57 | one round of case 2 lowers exactly the entries the prefix of length i+1 allows |
| BoyerMoore.PrefixShiftStep | boyer-moore.cpp:50-59 | case 2's round for `i` changes the prefix shift exactly when the prefix of length i+1 is a suffix |
| BoyerMoore.MatchedSuffixShifts | boyer-moore.cpp:62-69 | case 1's rounds lower each entry to the shift of the matched-suffix occurrences it has visited |
| BoyerMoore.GoodSuffixRule | boyer-moore.cpp:37-72 | as written, `bmGS` is the good-suffix table computed with len-2 case-1 rounds, one short; every entry lies in [1, len] |
| BoyerMoore.GoodSuffixRuleCorrected | boyer-moore.cpp:62-69 | with all len-1 case-1 rounds, `bmGS` is the full good-suffix table, entries in [1, len] |
| BoyerMoore.Preprocess | boyer-moore.cpp:74-80 | both tables are as BadCharRule and GoodSuffixRule leave them |
| BoyerMoore.BM | boyer-moore.cpp:94-100 | the shift is at least 1, at least both moves, and equals one of them |
| BoyerMoore.Scan | boyer-moore.cpp:112-128 | the scan loop computes the right-to-left comparison-and-shift search from the first alignment |
| BoyerMoore.Grep | boyer-moore.cpp:103-129 | the written search returns -1 or a real occurrence, and -1 when the pattern is longer than the text |
| BoyerMoore.GrepCorrected | boyer-moore.cpp:103-129 | with the corrected good-suffix table, the search returns exactly the first occurrence, or -1 |
| BoyerMoore.SearchFromSound | boyer-moore.cpp:112-128 | whatever tables are used, a reported position is an occurrence |
| BoyerMoore.SearchFromComplete | boyer-moore.cpp:112-128 | with a good-suffix table whose shifts skip no occurrence, the search finds the first occurrence |
| BoyerMoore.SkippedPlacement | boyer-moore.cpp:94-100 | no alignment the combined shift jumps over holds an occurrence |
| BoyerMoore.MismatchSkips | boyer-moore.cpp:94-100 | after a mismatch, no occurrence starts before the next alignment the shift chooses |
| BoyerMoore.ConsistentFromOccurrence | boyer-moore.cpp:88-91 | an occurrence `d` places after a mismatch agrees with the matched suffix and the mismatched byte |
| BoyerMoore.FirstMatchIs | boyer-moore.cpp:103-129 | an occurrence with none before it is the first match |
| BoyerMoore.CaseOneBound | boyer-moore.cpp:62-69 | a visited case-1 round bounds the entry it writes |
| BoyerMoore.CaseTwoBound | boyer-moore.cpp:50-59 | a prefix that is also a suffix bounds the case-2 shift |
| BoyerMoore.CaseOneOrTwo | boyer-moore.cpp:37-72 | each entry is either the case-2 shift or at most x+1 |
| BoyerMoore.ConsistentShiftBound | boyer-moore.cpp:37-72 | with all case-1 rounds, every shift consistent with the match is at least the table entry |
| BoyerMoore.CorrectedGoodSuffixSafe | boyer-moore.cpp:62-69 | the corrected table never jumps over an occurrence |
| BoyerMoore.GrepMissesOccurrence | boyer-moore.cpp:62 | for pattern "ab" and text "xab" the first occurrence is 1 but the written search returns -1 |
| Heap.HeapRootIsMin | heap.h:200-206 | in a min-heap the root is at most every key |
| Heap.AncestorAtMost | heap.h:200-206 | in a min-heap the root is at most the key at any index |
| Heap.CompareNode | heap.h:211-218 | 1, -1 or 0 exactly when the first key is greater, smaller or equal |
| Heap.ChildrenOf | heap.h:13-15 | node `c`'s parent is `p` exactly when `c` is LEFT_CHILD(p) or RIGHT_CHILD(p) |
| Heap.HoleUpStart | heap.h:153 | a heap with a free slot at the end is the start of the sift-up |
| Heap.HoleUpStep | heap.h:155-158 | moving a larger parent down moves the sift-up hole up |
| Heap.HoleUpFill | heap.h:160-165 | filling the hole under a parent no larger than the key restores the heap order |
| Heap.HoleDownStart | heap.h:179-181 | dropping the last node of a heap leaves a sift-down hole at the root |
| Heap.HoleDownStep | heap.h:182-190 | moving the smaller child up moves the sift-down hole down |
| Heap.HoleDownFill | heap.h:191-196 | filling the hole above children no smaller than the key restores the heap order |
| Heap.MultisetUpdate | heap.h:153-196 | overwriting a slot trades its key for the new one in the multiset |
| Heap.SiftUpStep | heap.h:155-158 | a sift-up step keeps the heap shape and the multiset of keys |
| Heap.SiftUpFill | heap.h:165 | the final write leaves a heap with the old keys plus the new one |
| Heap.SiftDownStep | heap.h:182-190 | a sift-down step keeps the heap shape and the multiset of keys |
| Heap.SiftDownFill | heap.h:195-196 | the final write leaves a heap of the old keys less the root |
| Heap.MultisetCancel | heap.h:182-196 | the same key taken from two equal multisets leaves equal multisets: the bookkeeping of the sift-down's moves |
| Heap.SiftUp | heap.h:153-165 | the sift-up places `data` so that `a[..n+1]` is a min-heap holding the old keys plus `data` |
| Heap.SiftDown | heap.h:178-197 | the sift-down leaves `a[..n-1]` a min-heap holding the old keys less the old root |
| Heap.SiftDownRound | heap.h:182-193 | one round moves the smaller child up when it is smaller than the last node, keeping the sift-down invariant; otherwise nothing changes and the last node fits in the hole |
| Heap.FillHole | heap.h:195 | writing the last node into the hole leaves a min-heap of the remaining keys |
| Heap.Heap.constructor | heap.h:25-30 | an empty heap of capacity 0 |
| Heap.Heap.Resize | heap.h:84-106 | the capacity becomes the requested size (1024 when it is not positive) only when that is larger; the keys are kept |
| Heap.Heap.Insert | heap.h:147-169 | one more key, the multiset gains `data`, the heap order holds; the capacity doubles (1024 from 0) when full |
| Heap.Heap.Delete | heap.h:172-198 | with keys present, the least key leaves and the heap order holds; on a heap of one node or none the count becomes 0 |
| Heap.Heap.Root | heap.h:200-206 | none for an empty heap, otherwise the least key |
| MemoryPool.Align | memorypool.h:13-14 | ALIGN rounds up to the next multiple of 8 and wraps to 0 above 0xFFFFFFF8 |
| MemoryPool.AlignedUnit | memorypool.h:63 | a pool's unit ALIGN(unitSize) is between 1 and 2^32-1 for a unit size that does not wrap |
| MemoryPool.ClearUndoesSet | memorypool.h:194-224 | clearing a bit that Set had set gives back the word |
| MemoryPool.LowestClear | memorypool.h:227-243 | the lowest clear bit at or after `from`, 64 when none |
| MemoryPool.AllOnes | memorypool.h:227-243 | a word is all ones exactly when it has no clear bit |
| MemoryPool.WindowTest | memorypool.h:232-240 | each test of GetPos's binary search tells whether the next `step` bits are all set |
| MemoryPool.ShiftRightTwice | memorypool.h:237 | two right shifts are one shift by the sum |
| MemoryPool.HalveMask | memorypool.h:239-240 | halving `step` and shifting the mask by the new step leaves the mask of the new step's low bits |
| MemoryPool.ScanStart | memorypool.h:229-233 | GetPos starts its loop on the complement with the 32-bit mask, in the state its invariant names |
| MemoryPool.ScanStep | memorypool.h:232-240 | one halving round of GetPos keeps its invariant |
| MemoryPool.ScanDone | memorypool.h:241-242 | at the end of GetPos's rounds, the position is the lowest clear bit |
| MemoryPool.GetPos | memorypool.h:227-243 | the result is at most 63 and names, from the most significant end, the lowest clear bit; 0 for an all-ones word |
| MemoryPool.SetBitAt | memorypool.h:208-210 | setting a bit changes exactly that unit's bit |
| MemoryPool.ClearBitAt | memorypool.h:222-223 | clearing a bit changes exactly that unit's bit |
| MemoryPool.IndexesAfter | memorypool.h:208-223 | the first-level index stays the "word is full" summary of the second level |
| MemoryPool.PaddingIsUsed | memorypool.h:148-176 | the padding past the last unit is marked used |
| MemoryPool.FreeUnitIndexed | memorypool.h:195-201 | a free unit makes its index word not full |
| MemoryPool.ClearIndexBit | memorypool.h:203-205 | a clear index bit names a second-level word that is not full |
| MemoryPool.SetUnit | memorypool.h:194-214 | Set's writes mark exactly one free unit used and keep the index consistent |
| MemoryPool.ClearUnit | memorypool.h:216-224 | Clear's writes free exactly that unit and keep the index consistent |
| MemoryPool.MarkUsed | memorypool.h:208-211 | the unit's bit is set in its map word, and the index bit is set exactly when that word became full |
| MemoryPool.FreshShape | memorypool.h:148-176 | a new chunk's bitmap has every unit free and the index consistent |
| MemoryPool.MapBytes | memorypool.h:148 | `bitmapSize`: whole 64-bit words holding one bit per unit, in bytes |
| MemoryPool.IndexBytes | memorypool.h:151 | `indexOneSize`: whole 64-bit words holding one bit per map word, in bytes |
| MemoryPool.PresetWords | memorypool.h:165-176 | a zeroed bitmap level whose last word has its low `padding` bits set |
| MemoryPool.Bitmap.constructor | memorypool.h:148-176 | a bitmap of `units` units, all free, its words sized as AddChunk sizes them |
| MemoryPool.Bitmap.Locate | memorypool.h:195-205 | GetPos on both levels finds a word with a clear bit and a clear bit in it |
| MemoryPool.Bitmap.Set | memorypool.h:194-214 | a unit that was free is now used and every other unit is as it was |
| MemoryPool.Bitmap.Clear | memorypool.h:216-224 | the unit is free and every other unit is as it was |
| MemoryPool.SetBit | memorypool.h:208-210 | one word gains one bit, the others stay |
| MemoryPool.ClearBit | memorypool.h:222-223 | one word loses one bit, the others stay |
| MemoryPool.MoveToFront | memorypool.h:98-102 | the chunk at `i` moves to the head; the others keep their order; the multiset is kept |
| MemoryPool.MoveToFrontPositions | memorypool.h:98-102 | moving to the front is a permutation of positions, and position 0 leaves the list as is |
| MemoryPool.UnitChunksMoved | memorypool.h:98-102 | moving a chunk to the front keeps the pool's chunk invariant |
| MemoryPool.UnitChunksBump | memorypool.h:113-114 | counting one more unit in a non-full head chunk keeps the invariant |
| MemoryPool.InUseAppend | memorypool.h:86-137 | the units in use over two lists add up |
| MemoryPool.InUseMoveToFront | memorypool.h:98-102 | moving a chunk to the front keeps the number of units in use |
| MemoryPool.InUseUpdate | memorypool.h:113-128 | changing one chunk's count changes the total by the difference |
| MemoryPool.InUseRemove | memorypool.h:129-132 | releasing a chunk removes its count from the total |
| MemoryPool.FirstNonFull | memorypool.h:92-96 | the first chunk with room, or the list length when none |
| MemoryPool.UnitChunkAt | memorypool.h:120-125 | the first chunk with the id, or the list length when none |
| MemoryPool.FindUnitChunk | memorypool.h:120-125 | the walk over the list stops at the first chunk with the id |
| MemoryPool.FindNonFull | memorypool.h:92-96 | the walk over the list stops at the first chunk with room |
| MemoryPool.UnitCount | memorypool.h:144 | the units of a new chunk, a UINT32 value |
| MemoryPool.UnitCountRounds | memorypool.h:144 | without the wrap, the fewest units holding `capacity` bytes; when `capacity + unit - 1` wraps, the quotient of the wrapped sum |
| MemoryPool.ChunkBytes | memorypool.h:371-372 | the bytes of a new LinkListMemPool chunk, a UINT32 value |
| MemoryPool.ChunkBytesRounds | memorypool.h:371-372 | without the wrap, whole units, and the least multiple of the unit holding `capacity` bytes |
| MemoryPool.BitmapMemPool.constructor | memorypool.h:62-66 | the unit is the aligned unit size and the list is empty |
| MemoryPool.BitmapMemPool.AddChunk | memorypool.h:143-184 | on success a new empty chunk of UnitCount units (UINT32, wrapping) heads the list and the chunk count grows by one; on failure -1 and nothing changes |
| MemoryPool.BitmapMemPool.Init | memorypool.h:79-85 | one chunk of UnitCount(defaultCapacity) units is added, or -1 |
| MemoryPool.BitmapMemPool.Malloc | memorypool.h:86-117 | too large a request fails; otherwise the first chunk with room moves to the head and counts one more unit, or a new chunk is added; units in use grow by one on success |
| MemoryPool.BitmapMemPool.BringToFront | memorypool.h:98-102 | Malloc's relinking: the chunk moves to the head with the pool invariant and units in use kept |
| MemoryPool.BitmapMemPool.CountHeadUnit | memorypool.h:113-114 | the head chunk counts one more unit, and units in use grow by one |
| MemoryPool.BitmapMemPool.Free | memorypool.h:119-137 | the chunk's UINT32 unit counter drops by one, wrapping from 0 to 2^32-1 on a double free so the chunk then looks full; a chunk whose counter reaches 0 while more than 10 chunks exist is released; units in use drop by one when the counter was positive; an unknown chunk changes nothing |
| MemoryPool.Sub32 | memorypool.h:350 | UINT32 subtraction: the difference, wrapping modulo 2^32 when negative |
| MemoryPool.Add32 | memorypool.h:337 | UINT32 addition: the sum when it fits, below 2^32 always |
| MemoryPool.ListChunksMoved | memorypool.h:315-319 | moving a chunk to the front keeps the chunk invariant |
| MemoryPool.ListChunksUpdate | memorypool.h:330-358 | updating one chunk's counters keeps the chunk invariant |
| MemoryPool.Take | memorypool.h:330-337 | a block comes off the free list first, else from the bump offset; `size` grows by the request |
| MemoryPool.Give | memorypool.h:350-358 | the block goes on the head of the free list and `size` drops by one unit |
| MemoryPool.GiveThenTake | memorypool.h:330-358 | the free list is LIFO: the block freed last is handed out next |
| MemoryPool.TakeGiveWraps | memorypool.h:337-350 | a 4-byte Malloc then a Free with 8-byte units wraps the chunk's `size` to 2^32 - 4 |
| MemoryPool.FirstRoomy | memorypool.h:309-313 | the first chunk with at least `request` bytes left, or the list length |
| MemoryPool.ListChunkAt | memorypool.h:344-348 | the first chunk with the id, or the list length |
| MemoryPool.FindListChunk | memorypool.h:344-348 | the walk over the list stops at the first chunk with the id |
| MemoryPool.FindRoomy | memorypool.h:309-313 | the walk over the list stops at the first chunk with room |
| MemoryPool.LinkListMemPool.constructor | memorypool.h:280-284 | the unit is the aligned unit size and the list is empty |
| MemoryPool.LinkListMemPool.AddChunk | memorypool.h:369-386 | on success a new empty chunk heads the list; the chunk count is not changed, as in the source |
| MemoryPool.LinkListMemPool.Init | memorypool.h:295-301 | one chunk of the default capacity is added, or -1 |
| MemoryPool.LinkListMemPool.Malloc | memorypool.h:303-340 | too large a request fails; otherwise the first chunk with room moves to the head and gives a block by Take, or a new chunk does |
| MemoryPool.LinkListMemPool.BringToFront | memorypool.h:315-319 | Malloc's relinking: the chunk moves to the head with the pool invariant kept |
| MemoryPool.LinkListMemPool.TakeFromHead | memorypool.h:330-337 | the head chunk hands out the block Take gives, with the pool invariant kept |
| MemoryPool.LinkListMemPool.Free | memorypool.h:342-363 | the block goes back on its chunk's free list by Give; an unknown chunk changes nothing |
| SkipList.LevelAscending | skiplist.h:74-97 | every forward pointer at a level leads to a later node of at least that height, with a larger key |
| SkipList.Overwritten | skiplist.h:118-121 | overwriting a value keeps the shape and maps the key to the new value |
| SkipList.Inserted | skiplist.h:123-150 | a node linked after its predecessor keeps the list well formed, and the map gains the key |
| SkipList.InsertedOrder | skiplist.h:123-150 | the keys stay strictly ascending and distinct after the insert |
| SkipList.InsertedTop | skiplist.h:132-137 | the raised `level` is exactly the highest level in use |
| SkipList.InsertedContents | skiplist.h:123-150 | the map after the insert is the old map updated at the key |
| SkipList.Erased | skiplist.h:170-186 | unlinking and freeing the node keeps the list well formed, and the map loses its key |
| SkipList.ErasedOrder | skiplist.h:170-186 | the remaining keys stay ascending and none equals the erased one |
| SkipList.Lower | skiplist.h:182-184 | dropping an empty top level keeps the list well formed |
| SkipList.DescentFinds | skiplist.h:89-95 | after the descent, the key is held exactly when the next node has it, and then with that node's value |
| SkipList.DescentPredecessors | skiplist.h:76-89 | where the descent left each level is that level's predecessor of the key |
| SkipList.SpliceStep | skiplist.h:140-144 | one round of the linking loop splices the node into one more level |
| SkipList.Added | skiplist.h:123-150 | after every level is spliced and key and value are written, the list holds the new entry |
| SkipList.ChainStep | skiplist.h:196-201 | one round of clear's loop frees the first node of level 0 |
| SkipList.SpliceLevels | skiplist.h:140-144 | the linking loop splices the node into each of its levels |
| SkipList.RaiseUpdate | skiplist.h:132-137 | the levels above `level` up to the new node's start at the header |
| SkipList.UnspliceLevels | skiplist.h:171-176 | the unlink loop takes the node off every level where its predecessor points at it |
| SkipList.RemoveLevels | skiplist.h:170-186 | erase's found branch leaves a well-formed list whose map has lost the key, with `level` not raised |
| SkipList.Shrink | skiplist.h:182-184 | `level` drops to the highest non-empty level; the levels dropped are empty |
| SkipList.FreeChain | skiplist.h:196-201 | clear's loop frees every node but the header |
| SkipList.LeadingHits | skiplist.h:235-256 | at most the number of draws |
| SkipList.DrawnLevel | skiplist.h:235-256 | the drawn level lies in [1, max_level] and, below the cap, is one more than the number of leading multiples of 4 |
| SkipList.SkipList.constructor | skiplist.h:30 | `max_level` is `levels` and the list is not initialised |
| SkipList.SkipList.Default | skiplist.h:23 | `max_level` is DEFAULT_MAX_LEVEL (16) and the list is not initialised |
| SkipList.SkipList.Init | skiplist.h:46-66 | on success an empty list at level 0 with every header pointer null; -2 when an allocation fails |
| SkipList.SkipList.Descend | skiplist.h:76-89 | the descent ends just before the first key not below `k` and records each level's predecessor |
| SkipList.SkipList.DescendLevels | skiplist.h:76-89 | the outer loop keeps every visited level fenced below `k` |
| SkipList.SkipList.Forward | skiplist.h:77-83 | the inner loop moves right while the next key is below `k` |
| SkipList.SkipList.Search | skiplist.h:74-97 | 0 with the value exactly when the key is held; -1 otherwise, with the caller's value `v0` left as it was |
| SkipList.SkipList.Insert | skiplist.h:105-151 | 1 and the value overwritten when the key is held; 0 and the map updated, `level` raised to the drawn level minus one when that is higher; -2 and nothing changed when allocation fails |
| SkipList.SkipList.AddNode | skiplist.h:123-150 | the allocated branch adds the entry and raises `level` to the node's top level |
| SkipList.SkipList.Erase | skiplist.h:158-189 | 0 and the key removed when held, -1 and nothing changed otherwise; `level` never rises |
| SkipList.SkipList.RemoveNode | skiplist.h:170-186 | the found branch removes that node's key |
| SkipList.SkipList.Clear | skiplist.h:195-210 | every node, the header and `update` are freed, and the level is 0 |
| SkipList.SkipList.RandomLevel | skiplist.h:235-256 | the level drawn from the given `rand()` results |
| RBTree.PlugBalanced | rbtree.h:354-416 | a tree is black-balanced exactly when the subtree is and the rest of the path matches its black height |
| RBTree.PlugRed | rbtree.h:122-179 | the red rule holds for the tree exactly when it holds for the subtree and along the path |
| RBTree.InsertStart | rbtree.h:97-120 | a new RED leaf hung in a red-black tree starts Insert's fix-up invariant |
| RBTree.InsertDone | rbtree.h:122-179 | when the parent is not RED the fix-up stops with both rules kept |
| RBTree.InsertGrandparent | rbtree.h:123 | a RED parent has a grandparent, and that grandparent is BLACK |
| RBTree.InsertCase1 | rbtree.h:124-132 | case 1 moves the invariant two levels up with the same entries and size |
| RBTree.InsertCase3Left | rbtree.h:134-163 | cases 2 and 3 on the left leave a BLACK subtree keeping both rules and the entries |
| RBTree.InsertCase3Right | rbtree.h:164-177 | the mirror image on the right |
| RBTree.InsertCase3 | rbtree.h:134-176 | cases 2 and 3 leave the whole tree keeping both rules, with the same entries and size |
| RBTree.DeleteStart | rbtree.h:213-236 | cutting out a node with an empty side starts DeleteFixUp's invariant when the node was BLACK, and leaves a valid tree when it was RED |
| RBTree.DeleteDone | rbtree.h:356-415 | a RED `x` or the root, painted BLACK, restores every rule |
| RBTree.DeleteBrother | rbtree.h:357-358 | while `x` is BLACK and not the root, its brother is a real node |
| RBTree.DeleteCase1 | rbtree.h:359-363 | case 1 gives `x` a BLACK brother with the invariant, entries and size kept, and the measure falls |
| RBTree.DeleteCase2 | rbtree.h:365-369 | case 2 moves the extra BLACK to the parent with the measure falling |
| RBTree.DeleteCase34 | rbtree.h:371-384 | cases 3 and 4 leave a tree keeping every rule but perhaps the root colour, entries and size kept |
| RBTree.DeletePlan | rbtree.h:201-240 | cutting out the node (or its predecessor, whose key moves up) removes exactly the key, keeps the order, and starts the fix-up |
| RBTree.ClearDangles | rbtree.h:245-272 | after Clear frees a non-empty tree, `root_` names no record and no tree is held from it |
| RBTree.RBTree.constructor | rbtree.h:21-26 | no allocator, no sentinel, empty tree |
| RBTree.RBTree.Init | rbtree.h:65-84 | -1 when the allocator cannot be created, -2 when the sentinel cannot be, 0 and an empty tree otherwise; `size_` is kept |
| RBTree.RBTree.LeftRotate | rbtree.h:299-320 | the records hold the left-rotated subtree at the same position; the sentinel is untouched |
| RBTree.RBTree.RightRotate | rbtree.h:330-351 | the records hold the right-rotated subtree; the sentinel is untouched |
| RBTree.RBTree.LeftRotateWrites | rbtree.h:299-320 | the pointer writes of LeftRotate: the right child takes the node's place and parent, the node becomes its left child and adopts its old left child; no other record changes |
| RBTree.RBTree.RightRotateWrites | rbtree.h:330-351 | the mirror-image writes of RightRotate |
| RBTree.RBTree.Find | rbtree.h:426-438 | 0 and the node exactly when the key is present; -1 and the node under which it belongs |
| RBTree.RBTree.Search | rbtree.h:188-195 | 0 with the value exactly when the key is present; -1 with `value` unchanged |
| RBTree.RBTree.Insert | rbtree.h:92-181 | a new key is added to the map with size +1 and the red-black rules hold; a present key or failed allocation changes nothing |
| RBTree.RBTree.InsertRoot | rbtree.h:97-113 | the first node becomes the BLACK root, the map gains the key |
| RBTree.RBTree.InsertNew | rbtree.h:97-180 | hanging and fixing up a new node adds the key with the rules kept |
| RBTree.RBTree.Hang | rbtree.h:97-121 | the new RED record at the next free address hangs as a leaf where the search ended |
| RBTree.RBTree.InsertFixUp | rbtree.h:122-179 | the fix-up leaves a tree with both rules, BLACK root, same entries and size |
| RBTree.RBTree.InsertRedUncle | rbtree.h:124-132 | case 1 as one loop pass: the invariant moves to the grandparent, with entries and size kept and the depth falling |
| RBTree.RBTree.PaintRootBlack | rbtree.h:179 | the root turns BLACK with both rules and the entries kept |
| RBTree.RBTree.InsertRecolor | rbtree.h:124-132 | the three repaints of case 1 hold the repainted grandparent's subtree |
| RBTree.RBTree.InsertRotate | rbtree.h:134-176 | cases 2 and 3 rotate and repaint into the case-3 result |
| RBTree.RBTree.Straighten | rbtree.h:134-145 | case 2: an inner child is rotated to the outside, giving the tree case 3 expects |
| RBTree.RBTree.Case3Turn | rbtree.h:146-176 | case 3: repainting and a rotation at the grandparent give the case-3 result |
| RBTree.RBTree.Delete | rbtree.h:201-241 | 0 and the key removed with size -1 when present, -1 and nothing changed otherwise; the rules hold |
| RBTree.RBTree.DeleteNode | rbtree.h:206-240 | removing the found node removes its key with size -1 and keeps the rules |
| RBTree.RBTree.DeleteSelf | rbtree.h:213-240 | a node with an empty side is cut out itself |
| RBTree.RBTree.DeletePredecessor | rbtree.h:206-240 | a node with two children loses its key through its predecessor |
| RBTree.RBTree.SpliceAndCopy | rbtree.h:213-234 | the predecessor is spliced out of the records and its key and value copied into the found node |
| RBTree.RBTree.CopyUp | rbtree.h:231-234 | the found node takes its predecessor's key and value |
| RBTree.RBTree.DeleteFinish | rbtree.h:235-240 | the fix-up (when needed) and the release leave a valid tree of the remaining entries, size -1 |
| RBTree.RBTree.Predecessor | rbtree.h:207-211 | the last node down the right spine of the left subtree |
| RBTree.RBTree.Splice | rbtree.h:213-230 | the only child takes the cut node's place |
| RBTree.RBTree.DeleteFixUp | rbtree.h:354-416 | the fix-up leaves both rules, a BLACK root, and the same entries, size and addresses |
| RBTree.RBTree.DeleteRepaint | rbtree.h:415 | painting `x` BLACK completes the fix-up |
| RBTree.RBTree.DeleteStep | rbtree.h:356-413 | one pass keeps the fix-up invariant and lowers the measure |
| RBTree.RBTree.DeleteRedBrother | rbtree.h:359-363 | case 1 as one loop pass: the fix-up invariant holds with a smaller measure |
| RBTree.RBTree.DeleteBlackNephews | rbtree.h:365-369 | case 2 as one loop pass: `x` moves to its parent, the invariant holds with a smaller measure |
| RBTree.RBTree.DeleteRedNephew | rbtree.h:371-384 | cases 3 and 4 as the last loop pass: the invariant holds with `x` at the root |
| RBTree.RBTree.DeleteCase1Step | rbtree.h:359-363 | case 1's repaints and rotation |
| RBTree.RBTree.DeleteCase2Step | rbtree.h:365-369 | case 2's repaint of the brother |
| RBTree.RBTree.DeleteCase34Step | rbtree.h:371-384 | cases 3 and 4 hold the case-4 result at the parent |
| RBTree.RBTree.DeleteCase3Step | rbtree.h:372-377 | case 3 lifts the brother's near child |
| RBTree.RBTree.DeleteCase4Step | rbtree.h:378-383 | case 4 repaints and rotates at the parent |
| RBTree.RBTree.Clear | rbtree.h:245-272 | as written: every record of the tree is freed and `size_` counts them down, `root_` is not reset |
| RBTree.RBTree.ClearStep | rbtree.h:253-268 | one pass of the walk descends or frees a node and climbs, lowering the measure |
| RBTree.RBTree.ClearAndReset | rbtree.h:245-272 | Clear followed by `root_ = nil_`: a valid tree becomes the empty map with size 0 |
| RBTree.RBTree.DeleteAll | rbtree.h:275-282 | the postorder walk frees exactly the subtree's records |
| AVLTree.PlugBalanced | avl_tree.h:154-168 | a tree is AVL-balanced exactly when the subtree is and the path matches its height |
| AVLTree.LeftBalancedFixes | avl_tree.h:356-453 | L_Balance on a subtree with bf -2 gives a balanced subtree, its height and bf as the code's table says |
| AVLTree.RightBalancedFixes | avl_tree.h:461-557 | R_Balance on bf 2 gives a balanced subtree, the mirror image |
| AVLTree.LeftTurnKeeps | avl_tree.h:360-385 | the single rotation keeps entries and addresses |
| AVLTree.RightTurnKeeps | avl_tree.h:465-489 | the mirror single rotation keeps entries and addresses |
| AVLTree.RightLeftTurnKeeps | avl_tree.h:386-437 | the double rotation keeps entries and addresses |
| AVLTree.LeftRightTurnKeeps | avl_tree.h:490-542 | the mirror double rotation keeps entries and addresses |
| AVLTree.LeftBalancedKeeps | avl_tree.h:356-453 | L_Balance keeps entries and addresses |
| AVLTree.RightBalancedKeeps | avl_tree.h:461-557 | R_Balance keeps entries and addresses |
| AVLTree.GrowStep | avl_tree.h:154-168 | a retrace step after growth keeps the invariant |
| AVLTree.TiltedGrown | avl_tree.h:156-165 | the retilted parent's bf is right, and its height says whether it grew |
| AVLTree.ShrinkStep | avl_tree.h:236-251 | a retrace step after shrinking keeps the invariant |
| AVLTree.TiltedShrunk | avl_tree.h:238-248 | the retilted parent's bf is right, and its height says whether it shrank |
| AVLTree.RebalancedKeeps | avl_tree.h:157-160 | the retrace's balancing keeps entries and addresses |
| AVLTree.ChildSide | avl_tree.h:156 | in a search tree, a child is a left child exactly when the parent's key is larger |
| AVLTree.TurnedLeft | avl_tree.h:360-385 | the records hold the turned subtree after the single rotation |
| AVLTree.TurnedRight | avl_tree.h:465-489 | the records hold the mirror turned subtree |
| AVLTree.TurnedRightLeft | avl_tree.h:386-437 | the records hold the double-rotated subtree |
| AVLTree.TurnedLeftRight | avl_tree.h:490-542 | the records hold the mirror double-rotated subtree |
| AVLTree.Rehung | avl_tree.h:443-451 | the new subtree hangs where the old one was |
| AVLTree.Bypassed | avl_tree.h:205-229 | the only child takes the cut node's place in the records |
| AVLTree.SpliceShrinks | avl_tree.h:205-229 | cutting out a node with an empty side leaves a balanced subtree one level lower |
| AVLTree.UnhookEntries | avl_tree.h:184-200 | where the predecessor's entry lies among the entries |
| AVLTree.MinNodesGrow | avl_tree.h:10-67 | MN is monotone in the depth |
| AVLTree.FewestNodes | avl_tree.h:10-67 | every balanced tree of height d has at least MN(d) nodes |
| AVLTree.SparsestReaches | avl_tree.h:10-67 | some balanced tree of height d has exactly MN(d) nodes |
| AVLTree.DepthTableRows | avl_tree.h:24-67 | every row of the depth table is MN of its depth, for depths 2 to 45 |
| AVLTree.BelowParent | avl_tree.h:143-150 | a search that reached an empty subtree came from the left exactly when the key is below the parent's |
| AVLTree.RelabelBalanced | avl_tree.h:253-256 | writing a key and value into a node keeps every balance factor right |
| AVLTree.SpliceRemoves | avl_tree.h:205-231 | cutting out the node removes exactly its key and keeps the order |
| AVLTree.UnhookRemoves | avl_tree.h:184-258 | unhooking the predecessor and moving it up removes exactly the deleted key |
| AVLTree.UnhookShape | avl_tree.h:184-200 | the unhooked predecessor's place is one level lower |
| AVLTree.AVLTree.constructor | avl_tree.h:83-88 | an empty tree |
| AVLTree.AVLTree.Search | avl_tree.h:326-349 | 0 and the node exactly when the key is present, else -1 and the node under which it belongs; the same as the recursive Search |
| AVLTree.AVLTree.SearchFrom | avl_tree.h:302-318 | the recursive search from a subtree gives the same answer |
| AVLTree.AVLTree.SearchNode | avl_tree.h:264-272 | 0 with the value exactly when present, -1 with `retValue` unchanged |
| AVLTree.AVLTree.TurnLeft | avl_tree.h:360-385 | the single rotation of L_Balance in the records |
| AVLTree.AVLTree.TurnRight | avl_tree.h:465-489 | the single rotation of R_Balance in the records |
| AVLTree.AVLTree.TurnRightLeft | avl_tree.h:386-437 | the double rotation of L_Balance in the records |
| AVLTree.AVLTree.TurnLeftRight | avl_tree.h:490-542 | the double rotation of R_Balance in the records |
| AVLTree.AVLTree.LeftTurnWrites | avl_tree.h:360-385 | the pointer and bf writes of L_Balance's single rotation, with no other record changed |
| AVLTree.AVLTree.RightTurnWrites | avl_tree.h:465-489 | the mirror-image writes of R_Balance's single rotation |
| AVLTree.AVLTree.RightLeftWrites | avl_tree.h:386-437 | the pointer and bf writes of L_Balance's double rotation, the bf following the new root's old bf |
| AVLTree.AVLTree.LeftRightWrites | avl_tree.h:490-542 | the mirror-image writes of R_Balance's double rotation |
| AVLTree.AVLTree.Rehang | avl_tree.h:443-451 | the rebalanced subtree is hung back, or becomes the head |
| AVLTree.AVLTree.LBalance | avl_tree.h:356-453 | the records hold the L_Balance result at the same position |
| AVLTree.AVLTree.RBalance | avl_tree.h:461-557 | the records hold the R_Balance result at the same position |
| AVLTree.AVLTree.Retilt | avl_tree.h:154-160 | one retrace step: the parent's bf moves and it is rebalanced on ±2 |
| AVLTree.AVLTree.Tilt | avl_tree.h:150-154 | the parent's bf moves one step toward a grown subtree, or away from a shrunk one |
| AVLTree.AVLTree.InsertNode | avl_tree.h:111-173 | 1 and the key added with size +1 when absent; 0 and nothing changed when present; -1 when the first node cannot be allocated; the AVL rules hold |
| AVLTree.AVLTree.InsertFirst | avl_tree.h:113-127 | the first node becomes the head |
| AVLTree.AVLTree.HangLeaf | avl_tree.h:129-147 | the new node with bf 0 at the next free address hangs as a leaf where the search ended |
| AVLTree.AVLTree.InsertBelow | avl_tree.h:129-172 | the new node is hung and retraced, adding the key with the rules kept |
| AVLTree.AVLTree.InsertRetrace | avl_tree.h:154-169 | the retrace leaves a balanced tree with the same entries |
| AVLTree.AVLTree.Climb | avl_tree.h:154-167 | one retrace step climbs a level and either ends balanced or keeps the invariant |
| AVLTree.AVLTree.DeleteNode | avl_tree.h:176-261 | 0 and the key removed with size -1 when present, -1 and nothing changed otherwise; the AVL rules hold |
| AVLTree.AVLTree.DeleteOne | avl_tree.h:203-259 | a node with an empty side is cut out and retraced |
| AVLTree.AVLTree.Bypass | avl_tree.h:205-229 | the only child takes the node's place |
| AVLTree.AVLTree.DeleteTwo | avl_tree.h:184-259 | a node with two children loses its key through its predecessor |
| AVLTree.AVLTree.Unhook | avl_tree.h:191-199 | the predecessor's left child takes its place |
| AVLTree.AVLTree.UnhookRetrace | avl_tree.h:191-233 | unhooking the predecessor and retracing leave a balanced tree of the same entries less the predecessor's place |
| AVLTree.AVLTree.DeleteMoveUp | avl_tree.h:253-258 | the found node takes the predecessor's entry, which is released |
| AVLTree.AVLTree.Release | avl_tree.h:257-258 | `size` drops by one and the record is freed |
| AVLTree.AVLTree.Predecessor | avl_tree.h:186-188 | the last node down the right spine of the left subtree |
| AVLTree.AVLTree.DeleteRetrace | avl_tree.h:234-252 | the retrace leaves a balanced tree with the same entries and addresses |
| AVLTree.AVLTree.Sink | avl_tree.h:236-251 | one retrace step climbs a level and either ends balanced or keeps the invariant |
| AVLTree.AVLTree.Clear | avl_tree.h:275-282 | the postorder walk frees exactly the subtree's records and counts `size` down by its size |

## Left out

- Output: `main`, `Print`, the `printf` traces in the searches, the tree and list `dump` functions and `PreOrderTraverse` only print, so they are not modelled.
- `testtree.cpp` (a driver) and `b_tree.h` are not part of this model.
- `InitAVLTree` / `DestroyAVLTree` are declared in avl_tree.h without bodies, so there is nothing to model.
- `rand()`, `srand()` and `time()`: the results of `rand()` are the `rolls` parameter of `SkipList.SkipList.Insert` and `SkipList.SkipList.RandomLevel`.
- Allocation failure is a boolean parameter (`allocOk`, `headerOk`, `updateOk`, `allocatorOk`, `poolOk`, `nilOk`). The second `new` in the AVL `InsertNode` is unchecked in the source, so it is taken to succeed.
- AVLTree.AVLTree.Clear: the destructor's Clear leaves `avl_head` dangling, as written; the model states only which records are freed.
- `Heap::HeapBuild` and `Heap::SwapNode` are not modelled. `SwapNode` copies through an uninitialised temporary, and `HeapBuild` does a single one-level swap per node, so neither establishes anything provable.
- Heap `Init`, `Clear`, the destructor and its allocator object are not modelled.
- Heap.Heap.Resize and Heap.Heap.Insert take the allocator to exist; the source dereferences a NULL allocator when `Init` was never called.
- Heap keys are held as `int` values, not as pointers to caller-owned keys. `memcpy` into a newly allocated buffer is a fresh array holding the old keys.
- `CreatePartialMatchTable_3` (kmp.cpp:66-89) is not used by any search and is not modelled.
- Kmp.KmpGrep, Kmp.KmpSearch and BoyerMoore.Grep require a non-empty pattern. With an empty pattern the C code allocates a zero-length table and writes or reads outside it.
- BoyerMoore.Grep requires a pattern of at most 512 bytes, the size of the static `bmGS` table.
- BoyerMoore.Grep: only soundness is stated for the search as written (a reported position is an occurrence). Completeness fails, as the finding below shows.
- Raw memory is not modelled:
  - the byte layout of a chunk and the `memset` of a new chunk;
  - the pointer-range tests that find a block's chunk (a chunk id is passed instead);
  - `CrtAllocator`;
  - the commented-out BST pool.
- The `LinkListMemPool::Clear` and `BitmapMemPool` destructors only free memory, so they are not modelled.
- MemoryPool.BitmapMemPool.Malloc: a chunk carries its unit count, but its `Bitmap` is modelled separately in `MemoryPool.Bitmap`. Malloc returns the chunk's id rather than a unit address.
- `Realloc` is declared but not implemented in the source.
- Nothing here is concurrent.
- Keys and values are unbounded `int`s, and so are the element counters: the heap's `count_` and `size_` (heap.h:230-231), the skip list's level counters, RBTree's `unsigned int size_` (rbtree.h:445) and AVLTree's `int size` (avl_tree.h:580).
- The pools' `UINT32` arithmetic wraps as in the source: ALIGN, a new chunk's unit count and size (`UnitCount`, `ChunkBytes`), the BitmapMemPool unit counter on a double free, and the LinkListMemPool `size` counter (`Add32`, `Sub32`). The bitmap sizes of a chunk cannot wrap, because a unit is at least 8 bytes.
- Heap.Heap.Insert: doubles the capacity with unbounded `2 * size`. In the source `size_` is an `unsigned int` (heap.h:231), and `size_ * 2` (heap.h:149) is passed to `Resize`'s `int` parameter (heap.h:84). Once `size_` reaches 2^30 that argument is zero or negative, so `Resize` takes 1024, finds `1024 <= size_` and returns 0 without growing (heap.h:85-89). `Insert` then writes `root_[count_]` past the end of the buffer. The model does not capture this overflow.
- Heap.Heap.Resize: the source does not check the allocator's `Malloc` result (heap.h:91-95); the model takes it to succeed.
- MemoryPool.BitmapMemPool.constructor: requires a unit size of 1 to 0xFFFFFFF8 and a default capacity of at least one unit. A unit size of 0 or above 0xFFFFFFF8 aligns to 0, and AddChunk then divides by zero. A chunk of zero units gets an empty bitmap, which Malloc's `Set` then reads past.
- MemoryPool.LinkListMemPool.constructor: requires a unit size of 1 to 0xFFFFFFF8, for the same division by zero.
- SkipList.SkipList.constructor: requires `levels >= 1`. With fewer levels, `init` allocates a header with no forward pointer and an empty `update` array (skiplist.h:48-58). The first search or insert then reads level 0 of both, past their ends.

## Findings

| source | as written | input that shows it | evidently intended | confidence | as-written member | corrected member |
|---|---|---|---|---|---|---|
| boyer-moore.cpp:62 | case 1 of the good-suffix rule runs its loop only while `i < patternLen-2`, skipping the round for `i = patternLen - 2`, so some `bmGS` entries stay too large and the search jumps over an occurrence | pattern "ab", text "xab": the first occurrence is at 1, the search returns -1 | all `patternLen - 1` rounds, so no shift skips an occurrence | not executed | BoyerMoore.GrepMissesOccurrence | BoyerMoore.GrepCorrected |
| kmp.cpp:172 | KmpSearch allocates `new int[patternLen]`, but GetNext writes `next[patternLen]` (kmp.cpp:152) | any non-empty pattern, e.g. "a" | a table of `patternLen + 1` entries | not executed | Kmp.KmpSearchTable | Kmp.KmpSearch |
| rbtree.h:245-272 | Clear frees every node but leaves `root_` pointing at the freed root | any non-empty tree | `root_ = nil_` after the walk, leaving an empty tree | not executed | RBTree.ClearDangles | RBTree.RBTree.ClearAndReset |
