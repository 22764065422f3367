# Memory-management exercises, modelled and verified in Dafny

This project models the core of a set of Rust operating-systems exercises, written for a discrete-mathematics course:

- **allocator.rs**: a generic AVL tree, and a block allocator built on it. `Allocator::new` tiles the user memory range [0x10000000, 0x20000000) with power-of-two blocks of 4 KiB to 1 MiB. The exponent of each block is drawn at random with weights `20 - e`, and each block is registered in the tree under its size. `allocate_block` walks the tree looking for a block at least as large as the request.
- **boot.rs**: the x86-64 page-table entry layout. Bit 0 is the present flag, bits 0-11 are the flags, bits 12-51 are the frame address, and each table has 512 entries indexed by 9 address bits per level. The model covers the final entry update of `map_page`.
- **dir.rs**: an in-memory directory of files and subdirectories with permission flags, and its sorted listing.
- **deallocator.rs**: a mark-and-sweep heap. Objects are threaded on one singly linked list, marking follows `next` pointers, and sweeping unlinks and frees the unmarked objects.

Each Rust entity that is a value is a datatype: tree nodes, tiles and blocks, page-table entries, files, heap objects. Each entity whose fields the Rust code updates in place is a class: `AvlTree`, `Allocator`, `PageTable`, `Directory` and `Heap`. Loops in the source are loops in the model, proved against specification functions, and the properties of those functions are proved as lemmas.

Files and modules:

| file | module | models |
|---|---|---|
| wrappers.dfy | `Wrappers` | `Option` |
| avl.dfy | `Avl` | `AVLTree` and `Node` of allocator.rs |
| allocator.dfy | `BlockAllocator` | `Allocator` of allocator.rs |
| paging.dfy | `Paging` | `PageTableEntry` and `PageTable` of boot.rs |
| directory.dfy | `Directories` | dir.rs |
| heap.dfy | `MarkSweep` | deallocator.rs |

Where the code cannot be compiled as written, the model follows what the code evidently means. The fragments affected, all in allocator.rs:

- `AVLTree::new` (lines 52-56) discards the tree it builds.
- In the `None` arm of `insert_node` (lines 126-132), a `;` turns the new leaf into a statement.
- Node has no `start`/`end` fields, so the revised `insert_node` (lines 263-300) and `allocate_block` (line 247) refer to fields that do not exist. The model carries `start` and `end` inside the stored value, as `Block(value, start, end)`.
- `memory_tree.insert(block_size, current_address, current_address, block_end)` (line 234) calls the revised four-argument insert.
- `rotate_right` and `rotate_left` (lines 62-84) recompute `node.height` after `node` has been moved into `new_root`. The model gives the moved node its recomputed height before linking it under the new root.

Three places compile but do something other than what is evidently intended. All three are listed under "## Findings" and modelled twice: once as written, and once corrected. The corrected versions are the ones the rest of the model uses. In particular, `insert_node`, `remove_node` and `Allocator::new` are modelled over the corrected `balance`. As written, `balance` panics whenever a single rotation is needed. `Allocator::new` therefore panics, for example, when its first three blocks are 16 KiB, 8 KiB and 4 KiB.

## Model

| member | source | states |
|---|---|---|
| Avl.Height | allocator.rs:58-60 | the stored height of a node, -1 for an empty subtree (no contract; see HeightIsDepth) |
| Avl.HeightIsDepth | allocator.rs:58-60 | in a balanced tree the stored height is the length of the longest downward path |
| Avl.RotateRight | allocator.rs:62-72 | the left child becomes the root, with its left subtree kept and the old root as its right child, which takes over the old left child's right subtree; the in-order sequence and the key/value map are unchanged |
| Avl.RotateLeft | allocator.rs:74-84 | the mirror image: the right child becomes the root, with the old root as its left child; the in-order sequence and the key/value map are unchanged |
| Avl.RotateRightOrdered | allocator.rs:62-72 | a right rotation keeps the binary-search-tree ordering |
| Avl.RotateLeftOrdered | allocator.rs:74-84 | a left rotation keeps the binary-search-tree ordering |
| Avl.RotateRightBalanced | allocator.rs:62-72 | a right rotation of a node whose left child is two higher and leans left yields a balanced subtree, at most one higher than that child |
| Avl.RotateLeftBalanced | allocator.rs:74-84 | the mirror image of the right rotation, for a right child two higher that leans right |
| Avl.Balance | allocator.rs:86-108 | corrected `balance`: rebalancing keeps the in-order sequence, the key/value map and the ordering |
| Avl.BalanceAsWritten | allocator.rs:86-108 | `balance` as written panics exactly when a single rotation is needed (left child two higher and not leaning right, or the mirror case); everywhere else it agrees with the corrected `Balance` |
| Avl.InsertTwoBelowThree | allocator.rs:115-124 | inserting 2 into the one-node tree 3 gives the tree 3 with left child 2, with no rotation, as written or corrected |
| Avl.InsertOneBelowTwo | allocator.rs:115-124 | inserting 1 into the one-node tree 2 gives the tree 2 with left child 1, with no rotation, as written or corrected |
| Avl.InsertDescendingPanics | allocator.rs:90-95 | the third insertion of 3, 2, 1 rebuilds node 3 over the subtree 2-1; `balance` as written panics there, and the corrected `Balance` makes 2 the root |
| Avl.BalanceLeftRight | allocator.rs:90-95 | left child two higher and leaning right: the double rotation yields a balanced subtree whose height is the left child's height or one more |
| Avl.BalanceLeftLeft | allocator.rs:90-95 | left child two higher and not leaning right: the single right rotation yields a balanced subtree of that height or one more |
| Avl.BalanceLeftHeavy | allocator.rs:90-96 | any left-heavy node (difference two) is balanced by `balance` |
| Avl.BalanceRightLeft | allocator.rs:98-103 | right child two higher and leaning left: the double rotation yields a balanced subtree |
| Avl.BalanceRightRight | allocator.rs:98-103 | right child two higher and not leaning left: the single left rotation yields a balanced subtree |
| Avl.BalanceRightHeavy | allocator.rs:98-104 | any right-heavy node (difference two) is balanced by `balance` |
| Avl.BalanceRestoresBalance | allocator.rs:86-108 | with balanced children differing by at most two, the result is balanced, with height the larger child height or one more; with children differing by at most one, only the height is recomputed |
| Avl.InsertedLeft | allocator.rs:115-124 | rebuilding and rebalancing a node whose left subtree received the entry gives an AVL tree with the entry added, at most one higher |
| Avl.InsertedRight | allocator.rs:115-124 | the same for an insertion into the right subtree |
| Avl.InsertedHere | allocator.rs:119-122 | overwriting the value at the node that holds the key keeps the tree an AVL tree and updates exactly that entry |
| Avl.InsertNode | allocator.rs:268-300 | on an AVL tree, the result is an AVL tree mapping `key` to `value` and every other key as before; the height grows by at most one |
| Avl.Leftmost | allocator.rs:147-152 | following `left` links from the root of an ordered tree reaches its smallest key, with that key's value |
| Avl.RebalanceAfterRemoval | allocator.rs:162 | rebalancing a node whose children lost at most one level gives a balanced node at most one lower, and the node itself when nothing changed |
| Avl.RemovedFromLeft | allocator.rs:138-162 | removing the key from the left subtree and rebalancing gives an AVL tree without the key, at most one lower; the tree is unchanged when the key is absent |
| Avl.RemovedFromRight | allocator.rs:138-162 | the same for the right subtree |
| Avl.ReplacedBySuccessor | allocator.rs:147-157 | moving the in-order successor into the node and removing it from the right subtree gives an AVL tree without the node's key |
| Avl.RemoveNode | allocator.rs:136-166 | on an AVL tree, the result is an AVL tree mapping every key but `key` as before, at most one level lower, and the same tree when `key` is absent (corrected two-children case) |
| Avl.RemoveRootAsWritten | allocator.rs:147-157 | the two-children case as written: when it does not panic, the result holds only the left subtree and the successor, so the rest of the right subtree is lost; it does not panic when the left subtree has height 0 or less |
| Avl.RemoveRootAsWrittenLosesKeys | allocator.rs:147-157 | removing key 2 from the AVL tree 1, 2, 3, 4 this way loses key 4 |
| Avl.RemoveAsWritten | allocator.rs:182-185 | `remove` as written reports `None` on an empty tree and, when the key is absent from a non-empty tree, the root's value instead of `None` |
| Avl.AvlTree.constructor | allocator.rs:52-56 | a new tree is empty |
| Avl.AvlTree.Insert | allocator.rs:187-189 | the tree stays an AVL tree, maps `key` to `value`, keeps every other entry, and grows by at most one level |
| Avl.AvlTree.Remove | allocator.rs:182-185 | corrected `remove`: the tree stays an AVL tree and loses exactly `key`; the result is the value `key` had, or `None` |
| Avl.AvlTree.Search | allocator.rs:168-180 | the search finds exactly the value the tree maps `key` to, and `None` for an absent key |
| BlockAllocator.Pow2Pages | allocator.rs:232 | a block of exponent `e >= 12` is a whole number of 4 KiB pages |
| BlockAllocator.Pow2Monotone | allocator.rs:212 | a larger exponent gives a larger block |
| BlockAllocator.MinMaxBlockSize | allocator.rs:202-203 | the exponent bounds 12 and 20 are the sizes 4 KiB and 1 MiB |
| BlockAllocator.FloorLog2 | allocator.rs:212 | `floor(log2(n))` is the exponent `r` with `2^r <= n < 2^(r+1)` |
| BlockAllocator.MaxExp | allocator.rs:212 | `max_exp`, the smaller of 20 and floor(log2(remaining)) (no contract; see MaxExpBounds) |
| BlockAllocator.MaxExpBounds | allocator.rs:212 | `max_exp` is at most 20, its block fits in the remaining memory, and below 20 it is the largest exponent that fits |
| BlockAllocator.Weight | allocator.rs:215-218 | the weight of an exponent in [12, 20] is between 0 and 8, and it is 0 exactly for exponent 20 |
| BlockAllocator.CumulativeWeight | allocator.rs:219-225 | the running weight after exponent `e` (no contract; see CumulativeWeightClosedForm) |
| BlockAllocator.CumulativeWeightClosedForm | allocator.rs:215-225 | the running weight is 0 before exponent 12, and up to exponent `e` it is `(e - 11)(28 - e) / 2`, so 36 for the whole range |
| BlockAllocator.CumulativeWeightMonotone | allocator.rs:215-225 | the running sum of the weights `20 - e` never decreases up to exponent 20 |
| BlockAllocator.DrawExponent | allocator.rs:211-230 | the drawn exponent is in [12, 20): it is the first one whose running weight reaches the random weight, it does not exceed `max_exp`, and it falls back to 12 when no running weight reaches the random weight |
| BlockAllocator.MaxExpAtLeastMin | allocator.rs:212 | while a positive multiple of 4 KiB remains, `max_exp` is at least 12 |
| BlockAllocator.BlockFitsRemaining | allocator.rs:212-236 | a block of an exponent in [12, max_exp] fits in the remaining memory and leaves a multiple of 4 KiB |
| BlockAllocator.TilingStep | allocator.rs:232-236 | cutting such a block at the current address extends the left-to-right tiling of the user range |
| BlockAllocator.TilesMapStep | allocator.rs:234 | inserting a block updates the tree contents at the block's size key only |
| BlockAllocator.TilingSum | allocator.rs:210-237 | the block sizes of a tiling add up to the length of the range it covers |
| BlockAllocator.TilesMapKeys | allocator.rs:232-234 | a size is a key of the tree exactly when some cut block has that size |
| BlockAllocator.TilesMapLastWins | allocator.rs:234 | for each size key the tree holds the last block of that size that was cut |
| BlockAllocator.TilesMapFits | allocator.rs:232-236 | every registered block lies in the user range, starts at its stored value and spans exactly its size key |
| BlockAllocator.TilesMapSizes | allocator.rs:211-232 | every size key is between 4 KiB and half of 1 MiB; a non-empty tiling registers at least one block |
| BlockAllocator.TilingComplete | allocator.rs:210-237 | a tiling of the whole user range covers 0x10000000 bytes and registers at least one block, and only fitting blocks of permitted sizes |
| BlockAllocator.Allocator.constructor | allocator.rs:198-240 | the blocks cut tile the user range exactly, the tree holds the last block of each size, the tree is non-empty, and every key is a permitted block size |
| BlockAllocator.Allocator.AllocateBlock | allocator.rs:242-257 | a result is the start and end of a registered block whose size key is at least the request, inside the user range; `None` exactly when every key is smaller than the request |
| Paging.IsPresent | boot.rs:104-106 | bit 0 of the entry (no contract; see PresentIsOdd) |
| Paging.PresentIsOdd | boot.rs:104-106 | an entry is present exactly when its value is odd |
| Paging.FrameAddress | boot.rs:107-109 | the frame address has its low 12 bits and bits 52-63 clear |
| Paging.FrameAddressAligned | boot.rs:107-109 | the frame address is a multiple of the 4 KiB page size |
| Paging.Flags | boot.rs:115-117 | the flags fit in 12 bits |
| Paging.EntryFields | boot.rs:107-117 | an entry is exactly its bits 52-63, its frame address and its flags put together |
| Paging.FlagsAreRemainder | boot.rs:115-117 | the flags are the entry value modulo 4096 |
| Paging.SetFrameAddress | boot.rs:111-113 | afterwards the frame address is the address's bits 12-51 |
| Paging.FrameRoundTrip | boot.rs:107-113 | an aligned address below 2^52 is read back unchanged after being set |
| Paging.SetFrameAddressKeepsRest | boot.rs:111-113 | setting the frame address keeps the flags, the present bit and bits 52-63 |
| Paging.SetFlags | boot.rs:119-121 | afterwards the flags are the low 12 bits of the argument, and the entry is present exactly when bit 0 of the argument is set |
| Paging.SetFlagsKeepsRest | boot.rs:119-121 | setting the flags keeps the frame address and bits 52-63 |
| Paging.PresentAfterMapping | boot.rs:166 | setting the flags with bit 0 forced on always makes the entry present |
| Paging.MappedEntry | boot.rs:164-166 | the final update of `map_page` leaves the entry present, mapping the physical frame, with the low 12 bits of `flags` and bit 0 set, and keeps bits 52-63 |
| Paging.IndexBits | boot.rs:131-138 | the index is below 512, and shifted back into place it equals the 9 address bits that select the entry at that level |
| Paging.EntryIndex | boot.rs:131-134 | the index is always one of the 512 table slots |
| Paging.PageTable.constructor | boot.rs:169-173 | all 512 entries are zero: not present, frame 0, flags 0 |
| Paging.PageTable.GetEntry | boot.rs:131-134 | the entry returned is one of the table's entries |
| Paging.PageTable.SetEntryFrameAddress | boot.rs:136-139 | only the selected entry changes, and only by `set_frame_address` |
| Paging.PageTable.SetEntryFlags | boot.rs:136-139 | only the selected entry changes, and only by `set_flags` |
| Paging.PageTable.MapLeafEntry | boot.rs:164-166 | the entry selected at the last level becomes the mapped entry; no other entry changes |
| Directories.LexLeTotal | dir.rs:43 | the string order used by the sort is total |
| Directories.LexLeReflexive | dir.rs:43 | the string order is reflexive |
| Directories.LexLeTransitive | dir.rs:43 | the string order is transitive |
| Directories.LexLeAntisymmetric | dir.rs:43 | the string order is antisymmetric |
| Directories.SortedPermutationsEqual | dir.rs:41-43 | two sorted sequences with the same names are equal, so the listing does not depend on the hash-map iteration order |
| Directories.InsertSorted | dir.rs:43 | inserting into a sorted sequence keeps it sorted and adds exactly the one name |
| Directories.SortNames | dir.rs:41-43 | the sorted names are a sorted permutation of the input |
| Directories.KeysOf | dir.rs:41-42 | the collected keys are each key of the map exactly once |
| Directories.Utf8Width | dir.rs:50 | a character takes one to four bytes in UTF-8, and one exactly when it is ASCII |
| Directories.EncodeChar | dir.rs:50 | the UTF-8 encoding of a character has that many bytes, a lead byte that announces the length, continuation bytes 10xxxxxx, and decodes back to the character |
| Directories.EncodeTwo | dir.rs:50 | the two-byte form of a code point in [0x80, 0x800) decodes back to it |
| Directories.EncodeThree | dir.rs:50 | the three-byte form of a code point in [0x800, 0x10000) decodes back to it |
| Directories.EncodeFour | dir.rs:50 | the four-byte form of a code point in [0x10000, 0x110000) decodes back to it |
| Directories.Utf8Length | dir.rs:50 | `String::len` is between the character count and four times it |
| Directories.Utf8LengthIsEncodedLength | dir.rs:50 | `String::len` is the number of bytes of the string's UTF-8 encoding |
| Directories.Utf8LengthConcat | dir.rs:50 | the byte length of a concatenation is the sum of the byte lengths |
| Directories.Utf8LengthAscii | dir.rs:50 | the byte length equals the character count exactly when every character is ASCII |
| Directories.AccentedLetterTakesTwoBytes | dir.rs:50 | "é" is one character and two bytes |
| Directories.ItemFor | dir.rs:49-56 | a name is reported as "File" with the byte length of its content's UTF-8 encoding exactly when it is a file, else as "Directory" with size 0 |
| Directories.ItemsFor | dir.rs:48-58 | one listing line per name, in order, each computed as above |
| Directories.Directory.constructor | dir.rs:13-22 | a new directory has the given name, no files, no subdirectories, and both permissions |
| Directories.Directory.AddFile | dir.rs:24-26 | the file under `name` becomes a new file with the given content and permissions, replacing any earlier one; nothing else changes |
| Directories.Directory.AddDirectory | dir.rs:28-34 | the subdirectory `name`, created empty when absent and otherwise the existing one with its contents, gets the given permissions and is returned; no other entry changes |
| Directories.Directory.DeleteFile | dir.rs:36-38 | exactly the file `name` is removed, if present; nothing else changes |
| Directories.Directory.ListContents | dir.rs:40-59 | the listing has the directory's name and both counts, and its lines are the file and subdirectory names together, sorted, each with its kind and its size in bytes |
| MarkSweep.NewObject | deallocator.rs:10-13 | a new object is unmarked and its `next` is null |
| MarkSweep.MarkAll | deallocator.rs:53-55 | marking a set of objects changes only their mark bits, and sets exactly those |
| MarkSweep.Heap.constructor | deallocator.rs:21-23 | a new heap has no objects and a null list head |
| MarkSweep.Heap.Allocate | deallocator.rs:25-37 | a new unmarked object at a fresh address becomes the list head, pointing at the old head; the heap invariant is kept |
| MarkSweep.AllocateShape | deallocator.rs:25-37 | a fresh object in front of the list still threads every object exactly once |
| MarkSweep.AllocateMarks | deallocator.rs:25-37 | an unmarked object in front of the list keeps the marked objects a tail of the list |
| MarkSweep.AllocateStep | deallocator.rs:25-37 | allocation keeps the whole heap invariant |
| MarkSweep.Heap.MarkObject | deallocator.rs:46-59 | exactly the objects reachable from `p` along `next` get marked, stopping at null or at a marked object; nothing is unmarked and no link changes |
| MarkSweep.MarkNothing | deallocator.rs:48-49 | a null pointer marks nothing |
| MarkSweep.MarkedTail | deallocator.rs:48-50 | when marks propagate, everything after a marked object on the list is marked |
| MarkSweep.MarkedFrom | deallocator.rs:48-50 | at an already marked object, everything reachable from it is marked already |
| MarkSweep.MarkOneShape | deallocator.rs:53-55 | setting a mark bit keeps the list structure |
| MarkSweep.MarkOneMarks | deallocator.rs:53-58 | marking the object at position `i` moves the one place where marks may not yet propagate to `i` |
| MarkSweep.MarkAllOne | deallocator.rs:53-58 | marking one object and then a set equals marking the set with that object added |
| MarkSweep.ReachStep | deallocator.rs:58 | what is reachable from an object is that object plus what is reachable from its `next` |
| MarkSweep.MarkUnmarked | deallocator.rs:53-58 | marking an unmarked object and recursing on `next` marks exactly what is reachable from it |
| MarkSweep.Heap.Mark | deallocator.rs:39-44 | afterwards exactly the objects reachable from some root are additionally marked; nothing else changes |
| MarkSweep.MarkRoot | deallocator.rs:41-43 | marking from one more root accumulates the objects reachable from the roots visited so far |
| MarkSweep.Heap.Sweep | deallocator.rs:61-80 | afterwards the list holds exactly the objects that were marked, in their old order and all unmarked; exactly the unmarked objects are freed |
| MarkSweep.SurvivorsElements | deallocator.rs:61-80 | the survivors of a sweep are exactly the marked objects of the list, without repetition |
| MarkSweep.SurvivorsSnoc | deallocator.rs:65-78 | the survivors of one more object are the old survivors, plus that object when it is marked |
| MarkSweep.SweepStart | deallocator.rs:63 | before the first iteration the sweep invariant holds |
| MarkSweep.KeepKept | deallocator.rs:65-70 | keeping a marked object unmarks it and appends it to the linked survivors |
| MarkSweep.KeepRest | deallocator.rs:65-70 | keeping an object leaves the rest of the list untouched |
| MarkSweep.KeepStep | deallocator.rs:65-70 | an iteration on a marked object keeps the sweep invariant |
| MarkSweep.DropKeptHead | deallocator.rs:72-77 | freeing an unmarked object before any survivor makes the head link skip it |
| MarkSweep.DropKeptAfter | deallocator.rs:72-77 | freeing an unmarked object after a survivor makes that survivor's link skip it |
| MarkSweep.DropRest | deallocator.rs:72-77 | freeing an object leaves the rest of the list untouched |
| MarkSweep.DropStepHead | deallocator.rs:72-77 | an iteration on an unmarked object before any survivor keeps the sweep invariant |
| MarkSweep.DropAfterKept | deallocator.rs:72-77 | an iteration on an unmarked object after a survivor keeps the survivors linked |
| MarkSweep.DropAfterRest | deallocator.rs:72-77 | and leaves the rest of the list untouched |
| MarkSweep.DropStepAfter | deallocator.rs:72-77 | an iteration on an unmarked object after a survivor keeps the sweep invariant |
| MarkSweep.DropStep | deallocator.rs:71-78 | any iteration on an unmarked object keeps the sweep invariant |
| MarkSweep.SweepRunState | deallocator.rs:64-79 | after any number of iterations up to the list length the sweep invariant holds |
| MarkSweep.SweepRunFacts | deallocator.rs:64-79 | at each iteration the cursor is at the next list position and the objects touched are allocated |
| MarkSweep.SweepDoneLinked | deallocator.rs:64-79 | at the end the survivors are linked in order from the head |
| MarkSweep.SweepDoneUnmarked | deallocator.rs:64-79 | at the end only survivors are allocated, all unmarked |
| MarkSweep.SweepDoneKeys | deallocator.rs:64-79 | at the end exactly the objects that were marked are allocated |
| MarkSweep.SweepRunDone | deallocator.rs:61-80 | the completed sweep leaves exactly the marked objects, unmarked and linked in their old order |

## Left out

- `MemoryBlock` (allocator.rs:4-34) and the `memory` field of `Node`: the `Rc`/`Weak` reference counting is not used by the tree or the allocator.
- Keys of the generic tree are `int`. The only instantiation is `usize`, and no key there comes near overflow. The stored heights are `int` rather than `i32` for the same reason.
- BlockAllocator.Allocator.constructor: `rand::random::<f64>()` is a parameter `random`, a function from the draw count to a real. Only the choice of exponent for a given random weight is proved. The probability distribution the weights induce is not modelled, and floating-point rounding of the weight sums is not modelled either: weights are exact reals. The tree is built with the corrected `balance`; as written, the constructor panics as soon as an insertion needs a single rotation, for example when the first three blocks are 16 KiB, 8 KiB and 4 KiB.
- BlockAllocator.FloorLog2: `(n as f64).log2().floor()` is computed exactly on integers. The remaining memory is always a multiple of 4 KiB below 2^29, so no rounding is modelled.
- Printing: `println!` in `AVLTree::new`, and the output of `print_directory_contents`, which is modelled as the `Listing` value that would be printed.
- The `main` functions of allocator.rs and boot.rs, the boot assembly, `rust_munch`, the interrupt handlers and the `GlobalAlloc` stubs of boot.rs.
- The page-table walk of `map_page` (boot.rs:155-163), which allocates intermediate tables and follows raw physical pointers. Only the final entry update (boot.rs:164-166) is modelled. `get_next_level` and `get_next_level_mut` are left out for the same reason.
- Paging.IndexBits: requires `level` to be at most 5. A larger level shifts a 64-bit value by 64 or more, which panics under overflow checks; without them the shift amount is masked (level 6 shifts by 66 & 63 = 2). No caller passes a level above 3 (boot.rs:155, boot.rs:164).
- Avl.Balance: corrected `balance`. The source panics where a single rotation is needed; that behaviour is modelled by Avl.BalanceAsWritten (see "## Findings").
- Avl.BalanceLeftLeft: states the balanced result of the corrected single right rotation. On this branch the source panics (see "## Findings").
- Avl.BalanceLeftHeavy: states a balanced result for every left-heavy node, using the corrected single rotation. The source panics when the left child does not lean right.
- Avl.BalanceRightRight: states the balanced result of the corrected single left rotation. On this branch the source panics (see "## Findings").
- Avl.BalanceRightHeavy: states a balanced result for every right-heavy node, using the corrected single rotation. The source panics when the right child does not lean left.
- Avl.BalanceRestoresBalance: states a balanced result for the corrected `balance`, including on the single-rotation branches where the source panics.
- Avl.InsertNode: rebalances with the corrected `balance`. As written, an insertion that needs a single rotation (such as the third of 3, 2, 1, or of 1, 2, 3) panics.
- Avl.AvlTree.Insert: inherits the corrected `balance` from Avl.InsertNode.
- Avl.RemoveNode: rebalances with the corrected `balance` as well as the corrected two-children case.
- The `parent` links of `Directory` and `File`, and `File::set_parent`. They are boxed clones of the parent, not references, and nothing in the core reads them. `File::new` is the datatype constructor `File`, which leaves no parent.
- Directories.Directory.AddDirectory: the subdirectory that `or_insert_with` creates holds a boxed clone of the parent. The model creates it without one.
- Freeing with `Box::from_raw` is modelled as removing the address from the map of allocated objects. A freed address is never reused, because addresses come from a counter.
- MarkSweep.Heap.Mark: requires every root to be null or an allocated object. `mark_object` dereferences every root, and a dangling root is undefined behaviour in Rust.
- MarkSweep.Heap.MarkObject: requires the objects to form the heap's single list. The `next` pointers of the model are only ever set by `allocate` and `sweep`, so cycles and shared tails do not arise.
- AVLTree::remove as written also discards the rebuilt root: `remove_node` receives `&mut self.root`, but what it returns is not stored back into `self.root`. Only the corrected `Avl.AvlTree.Remove`, which stores the rebuilt tree, is modelled as a method over the tree. The as-written half covers only the reported value.

## Findings

| source | as written | input that shows it | evidently intended | confidence | as-written member | corrected member |
|---|---|---|---|---|---|---|
| allocator.rs:182-185 | `remove` returns the value at the root of the tree that `remove_node` rebuilt | removing the absent key 2 from the tree {1: a} reports `Some(a)` | return the removed key's value, and `None` when the key is absent | not executed | Avl.RemoveAsWritten | Avl.AvlTree.Remove |
| allocator.rs:90-104 | in the left-heavy case the left child is taken out of the node and put back only when it is first rotated left; otherwise `rotate_right` unwraps the missing left child and panics (the right-heavy case is the mirror image) | inserting 3, 2, 1 into an empty tree: node 3 is rebuilt over the subtree 2-1 and `balance` panics | put the child back before the single rotation, so that `rotate_right` makes it the root | not executed | Avl.BalanceAsWritten, Avl.InsertDescendingPanics | Avl.Balance |
| allocator.rs:147-157 | in the two-children case the right subtree is taken out first, so the successor is removed from an empty link and the rest of the right subtree is dropped | removing 2 from the AVL tree 1, 2, 3, 4 (root 2, right child 3 with right child 4) loses 4 | remove the successor from the right subtree and keep the rest of it | not executed | Avl.RemoveRootAsWritten | Avl.RemoveNode |
