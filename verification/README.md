# Verification of KernelPatch

This project models the parts of KernelPatch on which everything else rests, and
proves what they promise.  KernelPatch patches a stock arm64 kernel image, boots it,
maps itself into the kernel's page tables, and then hooks kernel functions at run time.

- **The heap** (`kernel/base/tlsf.c`).  The two-level segregated fit allocator, as a class
  over a word memory with the C functions as methods.  After any sequence of requests the
  blocks tile their pools, the free lists and bitmaps agree with the headers, payloads are
  disjoint, and every byte a client wrote reads back, wherever `tlsf_realloc` has moved it.
- **Inline hooks** (`kernel/base/hook.c`).  The relocation of displaced instructions against
  a small A64 machine: whatever a function does in the window that a hook overwrites, the
  relocated words do as well.  Above it the life of hooks over the slot pool, with the
  callbacks, the transit functions and the resolution of addresses.
- **Function-pointer hooks** (`kernel/base/fphook.c`), the same for pointer cells.
- **Page tables** (`kernel/base/map.c`, `kernel/base/start.c`).  The walk that creates and
  the walk that finds: what was created is found, and every other page is translated as
  before, by the walks of the code and by the table lookup that the Arm Architecture
  Reference Manual (DDI 0487) gives the processor.
- **The patch tool** (`tools/`).  The layout of a patched image, what parsing and unpatching
  get back from it after any number of updates, the symbol table reader, and the encoder of
  logical immediates against the decoder of DDI 0487.
- **SHA-256** (`kernel/base/sha256.c`) against FIPS 180-2, **memory search**
  (`kernel/base/baselib.c`), the **grouped key-value store**
  (`kernel/patch/common/kstorage.c`) over the kernel's circular lists, and the **hardware
  breakpoints** of the demo module that move to stay armed.

Code that updates state is a class or a method over an array with the fields and loops of
the original; code that computes a value is a function.  Ghost fields hold what the proofs
talk about: the map of blocks, the rings of list nodes, the code as it was before any hook.

## Where the code does not keep its promise

Each of these is a result of this project: an exact condition, proved for all inputs.

- `tlsf_malloc` of one of the last seven sizes below 2^64 wraps and hands out a minimum
  block (`TlsfRuns.MallocCovers`).
- `tlsf_memalign` with alignment 2^63 searches for 24 bytes, and keeps the heap valid but
  serves the request only if the block found happens to hold the one aligned address
  (`Tlsf.Control.Memalign`, `TlsfRuns.MemalignCovers`, `TlsfRuns.HalfAlignment`).
- `tlsf_realloc` to a size whose adjusted size is 0 cuts the block to nothing: the heap is
  still valid exactly when the block has no room for a header
  (`Tlsf.Control.Realloc`, `TlsfUnfit.CutIsNoHeap`).
- A relocated literal load takes its address from one word too early; it is right for one
  single address (`RelocatedBlocks.LiteralAddressIsShifted`).
- The relocation buffer of 36 words takes the window of a PAC prologue exactly when its
  blocks need at most 32 words (`HookWindow.FitsBuffer`, `HookWindow.LongPacPrologueOverflows`).
- `fp_hook_wrap` does not give back the slot of a transit function of 96 words or more, and
  accepts one of 95 words, whose last word is then written over the field `using` of the next
  slot (`FpHook.FpEngine.Wrap`, `FpHook.NinetyFiveWordsSpill`, `HookPool.FpWordsEndSlot`).
- `hook_chain_add` looks for duplicates only up to the first hole
  (`HookChain.AddKeepsDistinct`, `HookChain.DuplicateAfterHole`).
- With a block at level 0 the creating and the finding walk of the page tables can end
  differently, unless the finding walk reads the very same entry again
  (`Paging.WalksAgreeExactly`, `Paging.WalksDisagree`).
- The walks of the page tables cut every index to the size of a full table, so that their
  index into the first table is the one that the processor uses exactly when that table is
  full, as with 4 KiB pages and 39 or 48 bits; with 16 KiB pages and 48 bits, say, it lies
  behind the table's end (`Translation.FirstIndexAgreesExactly`).
- The branch written over a kernel's entry reaches the engine exactly when that is less than
  2^27 bytes away: at 2^27 it goes backwards, and further on none is written
  (`PatchLayout.EntryReachesEngine`).
- The logical-immediate encoder returns wrong fields for a 64-bit element whose zeros reach
  above bit 31 between ones.  Its 32-bit variant refuses the values whose ones wrap around
  all 32 bits, though they have fields, and accepts 32 ones, which have none
  (`LogicalEncoder.EncodeImmediate`, `ImmediateEncoder.HighGapUnsound`,
  `ImmediateNarrow.WrappedEncodable`).
- Additional strings that fill their area put the last terminator behind it, which four pairs
  of 127 bytes do (`PatchAdditional.FullAreaSpills`, `PatchAdditional.AreaCanBeFull`).
- The kernel calls back on extra items without the magic, which the tool leaves out
  (`PatchExtra.ToolReadsPrefix`).
- `on_each_kstorage_elem` loses the code of the callback that stops it
  (`Kstorage.Store.OnEach`); a read from behind an entry's end computes a negative length
  (`Kstorage.Store.ReadEntry`).

## Model

| member | source | states |
|---|---|---|
| `TlsfMapping.AdjustedRequest` | kernel/base/tlsf.c:496-508 | an adjusted request is 0 or an 8-aligned size from 24 to below 2^32, and the least such that covers the request; it is 0 exactly for 0 and for the sizes above 2^32 - 8 that do not wrap, and covers the request exactly up to 2^32 - 8 |
| `TlsfMapping.AlignUpIsCeiling` | kernel/base/tlsf.c:473-477 | without wrap-around, rounding up gives the least multiple at or above the value |
| `TlsfMapping.MappingInRange` | kernel/base/tlsf.c:515-529 | exactly the sizes below 2^32 have a list; 2^32 itself indexes one row past the end |
| `TlsfMapping.MappingMonotone` | kernel/base/tlsf.c:515-529 | larger sizes go to the same or to later lists |
| `TlsfMapping.MappingThreshold` | kernel/base/tlsf.c:515-529 | a size is mapped to a list or a later one exactly when it reaches the list's lower bound |
| `TlsfMapping.SearchListIsLargeEnough` | kernel/base/tlsf.c:532-539 | the list that a search starts at holds no block smaller than the request |
| `TlsfMapping.GoodFit` | kernel/base/tlsf.c:515-539 | good fit: every block in the list searched first or a later one is large enough, every block as large as the rounded request is in one of them, and rounding costs less than a 32nd of the request |
| `TlsfBitmaps.SetBits` | kernel/base/tlsf.c:598-615 | marking a list non-empty keeps both bitmap levels equal to which lists have a head |
| `TlsfBitmaps.ClearBits` | kernel/base/tlsf.c:582-594 | so does clearing the bits of a list that has become empty |
| `TlsfLists.UnlinkKeepsLists` | kernel/base/tlsf.c:572-595 | taking a block out of its list keeps every list well linked in both directions |
| `TlsfLists.LinkKeepsLists` | kernel/base/tlsf.c:598-615 | so does putting one in front |
| `TlsfLists.FreeListMembers` | kernel/base/tlsf.c:572-615 | following the links from a head meets exactly the blocks filed under that list |
| `TlsfLists.FreeListDistinct` | kernel/base/tlsf.c:572-615 | and meets each of them once |
| `TlsfMemory.HeaderBits` | kernel/base/tlsf.c:373-417 | the remainders and halves that the model computes with are the masks that the header functions use |
| `TlsfMemory.SplitEnc` | kernel/base/tlsf.c:639-657 | the stores of a split leave a memory that encodes the split blocks |
| `TlsfMemory.AbsorbEnc` | kernel/base/tlsf.c:660-667 | the stores of an absorption leave a memory that encodes the merged block |
| `Tlsf.Control.RemoveFreeBlock` | kernel/base/tlsf.c:572-595 | memory, heads and bitmaps stay coherent, the block is in no list, every other block keeps its list, and no client word changes |
| `Tlsf.Control.InsertFreeBlock` | kernel/base/tlsf.c:598-615 | the same for filing a free block under the list of its size |
| `Tlsf.Control.SearchSuitableBlock` | kernel/base/tlsf.c:541-569 | finds the head of the first non-empty list at or after the given one, and nothing exactly when all of them are empty |
| `Tlsf.Control.BlockSplit` | kernel/base/tlsf.c:639-657 | splits a block in two whose sizes and header add up to the old one, keeping the heap coherent |
| `Tlsf.Control.BlockMergePrev` | kernel/base/tlsf.c:670-681 | the handled free block is merged with a free predecessor and has none afterwards |
| `Tlsf.Control.BlockMergeNext` | kernel/base/tlsf.c:684-696 | a free successor is absorbed with its header, and nothing else changes |
| `Tlsf.Control.BlockTrimFree` | kernel/base/tlsf.c:699-708 | what is left of the block is at least the size asked for and less than one header more |
| `Tlsf.Control.BlockTrimUsed` | kernel/base/tlsf.c:711-722 | a live block is cut to the size asked for, less than one header more, and the heap is valid again |
| `Tlsf.Control.BlockTrimFreeLeading` | kernel/base/tlsf.c:724-737 | the leading part goes back as a free block and the handled block begins exactly size further on, if there is room |
| `Tlsf.Control.BlockLocateFree` | kernel/base/tlsf.c:739-764 | takes a free block that is large enough out of its list; finds none only if no free block reaches the rounded request |
| `Tlsf.Control.BlockPrepareUsed` | kernel/base/tlsf.c:766-776 | the located block becomes one new allocation of the size asked for and less than one header more |
| `Tlsf.Control.BlockSizeOf` | kernel/base/tlsf.c:892-900 | the size of a live pointer is that of its allocation, of the null pointer 0 |
| `Tlsf.Control.Malloc` | kernel/base/tlsf.c:1076-1082 | the heap stays valid; the result is a new 8-aligned allocation beside all others with the room of the adjusted request, or null with the state unchanged when the request is empty or no block can serve it; no client word changes |
| `Tlsf.Control.Free` | kernel/base/tlsf.c:1135-1147 | the heap stays valid, exactly the freed allocation disappears, and the words of all others are as before |
| `Tlsf.Control.Memalign` | kernel/base/tlsf.c:1084-1133 | for every alignment up to 2^63 the heap stays valid, one allocation is added or nothing changes, and the pointer and its room are what skipping to an aligned address makes of a free block that the search may find; below 2^63 it is a multiple of the alignment with the room of the adjusted request |
| `Tlsf.Control.Realloc` | kernel/base/tlsf.c:1172-1219 | the heap is valid afterwards if and only if the request does not cut a block to nothing, which is told from the request and the block's size; the block stays where it is if and only if it can have the room there, with a free successor's if there is one; null for a request that is not empty says that the heap is exhausted and unchanged; otherwise the allocation has the room, less than one header more, and starts with the old bytes up to the smaller size, and every other client word is kept; in the bad case no block map and lists whatever make the memory a heap |
| `Tlsf.Control.Memcpy` | kernel/base/tlsf.c:1149-1157 | copies the bytes from one live payload to another and changes no other client word |
| `Tlsf.Control.constructor` | kernel/base/tlsf.c:779-793 | an empty valid heap |
| `Tlsf.Control.AddPool` | kernel/base/tlsf.c:950-992 | a pool is accepted exactly when it is aligned and its size is in range; then it is one free block, the heap is valid and no allocation changes; else nothing changes |
| `Tlsf.Control.Check` | kernel/base/tlsf.c:826-871 | in any state whose lists end the answer is 0 if and only if every list and every listed block passes all the conditions, and negative otherwise |
| `Tlsf.Control.CheckPool` | kernel/base/tlsf.c:809-909 | in any state in which the walk ends the answer is 0 if and only if every block's flag tells whether the one before it is free, and negative otherwise |
| `TlsfChecks.ValidListsSound` | kernel/base/tlsf.c:826-871 | in every valid state all lists end and pass |
| `TlsfChecks.ValidPoolPasses` | kernel/base/tlsf.c:809-909 | and so do all pools |
| `TlsfPools.SentinelOrder` | kernel/base/tlsf.c:976-991 | filing the new block and writing the sentinel behind it go to different words, so that either order gives the same memory |
| `TlsfPools.BlocksTilePool` | kernel/base/tlsf.c:881-890 | the walk over a pool meets every block of the pool and no other, each begins where the one before ends, the last is the sentinel, and headers and payloads add up to the pool |
| `TlsfHeap.EmptyMeansExhausted` | kernel/base/tlsf.c:541-569 | when every list from the searched one on is empty, no free block reaches the rounded request |
| `TlsfBytes.PayloadsDisjoint` | kernel/base/tlsf.c:419-427 | the payloads of different live blocks do not overlap |
| `TlsfBytes.PayloadInPool` | kernel/base/tlsf.c:419-427 | every payload is 8-aligned, at least 24 bytes long and inside its pool |
| `TlsfBytes.ClientWriteKeeps` | kernel/base/tlsf.c:458-464 | a client may write every word of its payload, also the one that lies in the next header, and the heap stays valid |
| `TlsfUnfit.CutIsNoHeap` | kernel/base/tlsf.c:711-722 | after a live block was split at 0 no choice of blocks, lists and bitmaps makes the memory a valid heap over the same pools |
| `TlsfAlign.GapIsAligned` | kernel/base/tlsf.c:1111-1124 | skipping the computed gap reaches a multiple of the alignment |
| `TlsfAlign.GapIsLeast` | kernel/base/tlsf.c:1111-1124 | and no smaller gap that is empty or holds a header does |
| `TlsfRuns.MallocCovers` | kernel/base/tlsf.c:496-508 | an accepted request gets the room it asked for if and only if it is none of the seven sizes above 2^64 - 8 |
| `TlsfRuns.MemalignCovers` | kernel/base/tlsf.c:1097-1106 | the size searched leaves room to skip to an aligned address if and only if the alignment is below 2^63, for which 24 bytes are searched |
| `TlsfRuns.HalfAlignment` | kernel/base/tlsf.c:1111-1132 | with alignment 2^63 what memalign makes of the block it found is aligned and has the room asked for if and only if the block begins at that address or has room to split in front of it, and reaches far enough behind it |
| `TlsfRuns.Client.Run` | kernel/base/tlsf.c:826-1219 | after any sequence of requests that a client is entitled to, the heap is valid, the client's pointers are the live ones, both checkers report nothing, and memory reads as the client noted, in particular every byte as it was written if no request named its pointer |
| `TlsfRuns.Client.Serve` | kernel/base/tlsf.c:1076-1219 | one request keeps this, leaves the notes of every allocation it does not name, notes a granted write, and carries the bytes that realloc kept over to where it put them |
| `TlsfRuns.Client.Read` | kernel/base/tlsf.c:1076-1219 | a noted byte is read as noted |
| `TlsfNotes.NotesFollowRealloc` | kernel/base/tlsf.c:1172-1219 | the bytes a client wrote are found at the same distance from the new pointer up to the smaller size, and those of all other allocations where they were |
| `TlsfNotes.OneOwner` | kernel/base/tlsf.c:419-427 | no address lies in the payloads of two live pointers |
| `Relocation.KindIsFirstMatch` | kernel/base/hook.c:60-71 | a word matches a row of the tables exactly if that is its kind, except for the last row, which matches all |
| `Relocation.TargetIsEffective` | kernel/base/hook.c:141-282 | the address that each relocator computes from the immediate is the one that the instruction set defines, for every word and address |
| `RelocatedBlocks.EveryKindDecodes` | kernel/base/hook.c:24-71 | the row of the tables that a word matches and the instruction set's decoding of the word agree, for every word and all seventeen kinds |
| `RelocatedBlocks.BlockRuns` | kernel/base/hook.c:141-288 | running the words emitted for one instruction, a literal load excepted, has the effect of the instruction with its target redirected |
| `RelocatedBlocks.StubJumps` | kernel/base/hook.c:318-340 | the four words of an absolute jump reach any address and change X17 only |
| `RelocatedBlocks.LiteralAddressIsShifted` | kernel/base/hook.c:197-244 | the address fetched by a relocated literal load has the NOP word as its low half, and is the literal's address for a single address only |
| `HookWindow.PredictionMatchesEmission` | kernel/base/hook.c:92-109 | the address predicted for a branch into the window is where the words of that instruction are put |
| `HookWindow.PredictionRoundsDown` | kernel/base/hook.c:82-109 | an address between two instructions of the window counts as the first of them, and one outside is kept |
| `HookWindow.FitsBuffer` | kernel/base/hook.c:561-601 | the buffer takes every window of four instructions, and a window of five if and only if its blocks need at most 32 words |
| `HookWindow.LongPacPrologueOverflows` | kernel/base/hook.c:561-601 | a PAC prologue with four calls needs 38 words |
| `HookWindow.StepSimulated` | kernel/base/hook.c:509-559 | from the same state, the block of an instruction ends in the state that the instruction produces, at the image of its successor |
| `HookWindow.LinkContinues` | kernel/base/hook.c:163-171 | returning to the link that a relocated call has set goes on with the block of the next instruction |
| `HookWindow.CallFollowed` | kernel/base/hook.c:163-171 | a call out of the window that returns is matched by its block, the callee and the way on to the next block, with only X17, the stale return address and words that the callee left behind different |
| `SavedReturn.SavingCalleeReturns` | kernel/base/hook.c:163-171 | a callee that saves its frame and return address on the stack is such a call: below the stack pointer the two runs differ |
| `HookWindow.RunSimulated` | kernel/base/hook.c:561-601 | every run inside the window, of any length, with any loops and any calls that return, is matched by a run of the relocated words that agrees in flags, in all registers but X17 and, after a call, X30, and in memory up to the differences that the callees leave and no later step sees |
| `HookWindow.OriginIsCallable` | kernel/base/hook.c:561-601 | calling the relocated code does what the function's first instructions did, and then continues behind the window |
| `Hook.HookT.FirstMatch` | kernel/base/hook.c:515-521 | the scan of the tables finds the kind of the word |
| `Hook.HookT.ReloInTramp` | kernel/base/hook.c:92-109 | returns the image of the address under the relocation |
| `Hook.HookT.RelocateInst` | kernel/base/hook.c:509-559 | writes the words for one instruction, moves the count on by their number, and refuses exactly an ADRP or a load that refers into the window |
| `Hook.HookT.HookPrepare` | kernel/base/hook.c:561-601 | saves the window, chooses the trampoline and leaves the relocated words in the buffer with NOPs behind them, or names the error, for every window that fits the buffer |
| `HookChain.ChainSlots.Add` | kernel/base/hook.c:715-738 | the slots, the mark and the result are those of adding the callbacks at the first empty slot |
| `HookChain.ChainSlots.Remove` | kernel/base/hook.c:741-757 | the slots are those of clearing the first match |
| `HookChain.AddSettles` | kernel/base/hook.c:715-738 | adding keeps every used slot below the mark that bounds the transit loops |
| `HookChain.RemoveUndoesAdd` | kernel/base/hook.c:715-757 | removing right after adding gives back the slots there were |
| `HookChain.AddedReads` | kernel/base/hook.c:715-738 | an added callback stands, ready and with its udata, in what was the first empty slot, and no other slot changes; each of the three results comes exactly when its condition holds |
| `HookChain.RemovedReads` | kernel/base/hook.c:741-757 | removing clears the slot it stops at and no other |
| `HookChain.AddKeepsDistinct` | kernel/base/hook.c:715-738 | adding keeps the callbacks distinct if and only if none equal is held behind the first empty slot |
| `HookChain.PackedHoldsNothingLater` | kernel/base/hook.c:715-738 | which is so whenever the used slots have no hole |
| `HookChain.DuplicateAfterHole` | kernel/base/hook.c:715-757 | two adds, a removal and an add leave one callback in two slots |
| `HookTransit.BeforesAscend` | kernel/base/hook.c:357-361 | every ready slot with a before callback is called once, in ascending order |
| `HookTransit.AftersDescend` | kernel/base/hook.c:366-370 | every ready slot with an after callback is called once, in descending order |
| `HookTransit.Transit` | kernel/base/hook.c:345-372 | the call is the befores, then the origin unless one of them has set the skip flag, then the afters, each seeing what the one before left |
| `HookTransit.EmptyChainIsOrigin` | kernel/base/hook.c:345-372 | with no slot ready the call does what the original function does, and nothing else |
| `HookTransit.OriginCalled` | kernel/base/hook.c:362-365 | when the befores leave the skip flag clear, the origin is called once with the arguments they leave, and the afters see what it returned |
| `HookTransit.OriginSkipped` | kernel/base/hook.c:362-365 | when the befores leave the skip flag set, the afters see what the befores left, and nothing of the origin is in the result |
| `HookTransit.CallsAreLogged` | kernel/base/hook.c:345-372 | callbacks and an origin that write down their calls leave the log of the befores in order, each with its udata, the origin unless a before has skipped it, and the afters in reverse order |
| `HookTransit.MarkCoversReady` | kernel/base/hook.c:357-370 | no ready slot is missed by the loops up to the mark |
| `HookEngine.Engine.ZAlloc` | kernel/base/hmem.c:37-59 | the first free slot is taken and cleared, and no other changes |
| `HookEngine.Engine.GetMemFromOrigin` | kernel/base/hmem.c:67-78 | finds the slot in use of an origin |
| `HookEngine.Engine.BranchFuncAddr` | kernel/base/hook.c:113-137 | follows branches and landing pads to the address where they end |
| `HookEngine.Engine.Wrap` | kernel/base/hook.c:761-792 | any wrap keeps the code consistent with the slots, and every slot in use with the place of its own transit code as target; it hooks the origin with the callback added, or changes nothing about it and names the error; every other hook and its callbacks stay |
| `HookEngine.WrapAnswers` | kernel/base/hook.c:561-792 | a wrap of a function that is not hooked succeeds if and only if the addresses are the kernel's, there is a slot, every instruction of the window can be moved and the transit code fits; otherwise the error is the first of these in the order of the code |
| `Hook.BadAddressMask` | kernel/include/hook.h:236-239 | the addresses taken for the kernel's are those whose highest bit is set |
| `HookEngine.Engine.UnwrapRemove` | kernel/base/hook.c:795-813 | the callback is removed, and with the last one the hook and the changed code, exactly when removal is asked for |
| `HookEngine.HookInstalled` | kernel/base/hook.c:605-618 | writing a trampoline over an origin that is not hooked keeps every other hook and all untouched code |
| `HookEngine.HookRemoved` | kernel/base/hook.c:621-633 | writing back the saved words leaves code that is consistent without that hook |
| `HookEngine.OtherHooksKept` | kernel/base/hook.c:761-813 | what a request on one origin changes leaves the hooks and callbacks of every other |
| `HookEngine.ResolvesToOrigin` | kernel/base/hook.c:128-137 | in every reachable state a function resolves to the origin that it had in the original code |
| `HookRuns.Run` | kernel/base/hook.c:761-813 | every sequence of wraps and unwraps keeps the invariant |
| `HookRuns.TrampolineWhileHooked` | kernel/base/hook.c:605-633 | in every reachable state an origin holds the trampoline to the transit code of its slot while one is in use, and the original code otherwise |
| `HookRuns.HookedCallIsRedirected` | kernel/base/hook.c:605-618 | a call of a hooked function, from its first word on, with the landing pad if it has one, reaches the transit code that lies in the slot of that function, with only X17 changed |
| `HookRuns.CallReachesOrigin` | kernel/base/hook.c:128-137 | in every reachable state a call of a function comes to its origin with only the program counter changed, hooked or not |
| `HookRuns.OriginIsNoPad` | kernel/base/hook.c:113-137 | and an origin is neither a landing pad nor a branch to another address |
| `HookRuns.HookedOriginStillRuns` | kernel/base/hook.c:561-618 | while a function is hooked, any run through its displaced window, with the calls it makes, is matched from the relocated code, in the memory that the engine left |
| `HookRuns.ResolutionIsStable` | kernel/base/hook.c:113-137 | resolution gives the same origin in any two reachable states, and giving it again changes nothing |
| `HookRuns.WrapThenUnwrap` | kernel/base/hook.c:761-813 | wrapping a function that was not hooked and unwrapping it puts every word of the code back |
| `FpHook.FpEngine.Wrap` | kernel/base/fphook.c:246-283 | cells, slots and the word behind them stay consistent, with the transit code of its own slot as the target of each, if and only if no slot is taken for a transit function that is refused, and none of 95 words changes whether the next slot is in use or the word behind the last; but for those two every other slot stays; the transit function is in the slot |
| `FpHook.FpEngine.ChainPrepare` | kernel/base/fphook.c:179-218 | accepts up to 95 words and copies them behind two more; of 95 the last goes into the next slot, or behind the last one |
| `FpHook.NinetyFiveWordsSpill` | kernel/base/fphook.c:210-217 | a wrap with 95 words is accepted and leaves the next slot in use though no one has taken it |
| `HookPool.FpWordsEndSlot` | kernel/include/hook.h:219-234 | by the sizes of the declarations the first 96 words of a function-pointer hook's transit code lie in its slot, and the next is the field using of the slot behind |
| `HookPool.InlineWordsStay` | kernel/include/hook.h:206-217 | those of an inline hook stay in the slot up to 144 words, and from the 97th on lie behind every field of the chain |
| `FpHook.FpEngine.Unwrap` | kernel/base/fphook.c:286-313 | with the last callback the cell gets its original pointer back; other pointers keep their hooks |
| `FpHook.CellByReadiness` | kernel/base/fphook.c:246-313 | in every reachable state a pointer cell holds the address of the transit code in its own slot exactly while some callback is ready, and else its original pointer, which the slot keeps |
| `FpHook.ReadyBelowMark` | kernel/base/fphook.c:25-37 | every ready slot lies below the mark of the transit loops |
| `FpHook.Run` | kernel/base/fphook.c:246-313 | every sequence of requests whose transit functions fit with their head, which is those of up to 94 words, keeps cells and slots consistent |
| `PageWalks.CreatedIsFound` | kernel/base/map.c:131-169 | what the creating walk has created, a walk finds, for any numbering of entries that obeys the laws |
| `PageWalks.OthersKept` | kernel/base/map.c:131-169 | every other page is translated as before, mapped or not |
| `PageTables.LawsHold` | kernel/base/map.c:116-137 | shifts and masks of every supported page size and address width obey the laws |
| `Translation.TranslatedByHardware` | kernel/base/map.c:131-169 | where the first table is full, the table lookup of DDI 0487, section D8.2, over the same memory faults where a walk finds a descriptor missing, and where the walk ends in a page or table descriptor gives that descriptor's address plus the offset in the page |
| `Translation.SameTranslation` | kernel/base/map.c:131-169 | and if a walk ends alike in two states of which the second extends the tables of the first, that lookup gives the same in both, blocks and faults included |
| `Translation.PageLevels` | kernel/base/map.c:118-118 | the number of levels that the code computes is that of the lookups of DDI 0487 |
| `Translation.FirstIndexAgreesExactly` | kernel/base/start.c:144-149 | for a kernel address the index that both walks compute for the first table is the one of DDI 0487 if and only if that table is full; otherwise it lies behind the end of the table |
| `PageWalks.EmptyTree` | kernel/base/map.c:111-130 | a cleared first table is a tree that maps nothing, so there is a state to start from |
| `Paging.CreationKeeps` | kernel/base/map.c:111-171 | one creation keeps the tables a tree that extends the one before, maps the page to the address with the attribute if it was not mapped, changes nothing if it was, and keeps every other translation |
| `Paging.KernelMap.GetOrCreatePte` | kernel/base/map.c:111-171 | the same of the loop, and pgtable_entry then finds the entry with its descriptor; where the first table is full the processor translates every address of the page to the physical page and the same offset, and every address outside as before |
| `Paging.KernelMap.CreateThenFind` | kernel/base/start.c:127-174 | after a creation on an unmapped page, pgtable_entry returns the very entry |
| `Paging.KernelMap.PgtableEntry` | kernel/base/start.c:127-174 | returns the cell where its walk ends, or 0 where a descriptor is missing |
| `Paging.WalksAgree` | kernel/base/start.c:144-173 | the walk that finds and the walk that creates end alike, unless there is a block at level 0 |
| `Paging.FoundByBoth` | kernel/base/start.c:144-173 | a page that the creating walk ends in, the finding walk finds, with no condition on the tables |
| `Paging.WalksAgreeExactly` | kernel/base/start.c:144-173 | with four levels both walks end alike in every memory that holds a given level-0 entry if and only if the entry is no block, or the word that the finding walk reads next inside the block is that entry itself |
| `Paging.WalksDisagree` | kernel/base/start.c:151-166 | otherwise there is a memory in which the creating walk finds the block and the finding walk nothing |
| `Paging.KernelMap.MapRange` | kernel/base/map.c:230-233 | after the mapping loop every page of the range is mapped to its physical page and found by both walks, and no page outside changes; where the first table is full the processor translates every address of the range to its physical page and the same offset, and every address outside as before |
| `Paging.FinalLeafMaps` | kernel/base/map.c:232-232 | the bits set and cleared in each entry leave a page descriptor for the same page |
| `Paging.FinalLeafPermits` | kernel/base/map.c:232-232 | it is valid, accessed, shareable and writable, may be executed at EL1 and not at EL0, and has the memory attributes asked for |
| `Paging.KernelMap.ModifyEntry` | kernel/base/start.c:177-194 | writes the one entry, or gives every entry of its contiguous group the new protection and leaves its address; no other cell changes |
| `Paging.GroupIsSixteen` | kernel/base/start.c:177-194 | the group of an entry is the sixteen entries with the same index divided by 16 |
| `Paging.ReprotectKeepsAddress` | kernel/base/start.c:177-194 | taking over the protection of one entry keeps the address of the other |
| `Paging.ProtectionBits` | kernel/base/start.c:185-186 | the protection of an entry is its bits below the page and above bit 47 |
| `Sha256Stream.Context.Transform` | kernel/base/sha256.c:42-81 | one call is one round of the compression function of the standard |
| `Sha256Stream.Context.Update` | kernel/base/sha256.c:97-110 | absorbs a chunk: the state stands for the message with the chunk appended |
| `Sha256Stream.Context.Final` | kernel/base/sha256.c:112-156 | pads and gives the hash value of the whole message |
| `Sha256Stream.HashChunks` | kernel/base/sha256.c:83-156 | however a message is cut into chunks, the result is the hash value that the standard defines for it |
| `Sha256Standard.KIsCubeRoot` | kernel/base/sha256.c:30-39 | each constant of the rounds is the first 32 bits of the fraction of the cube root of a prime (FIPS 180-2, section 4.2.2) |
| `Sha256Standard.InitialIsSquareRoot` | kernel/base/sha256.c:83-95 | each word of the initial hash value is that of the square root of one of the first eight (section 5.3.2) |
| `Sha256Standard.PrimesInOrder` | kernel/base/sha256.c:30-39 | and these are the first 64 primes, in order |
| `Sha256Standard.LogicalFunctions` | kernel/base/sha256.c:19-27 | bit by bit, the macros are choice, majority and the four functions sigma (section 4.1.2) |
| `Sha256Standard.BigEndian` | kernel/base/sha256.c:46-47 | words are read and written with the highest byte first |
| `Sha256Standard.PaddingReads` | kernel/base/sha256.c:112-140 | the padded message is the message, a one bit, the fewest zeros that fill a block, and the length in bits as a 64-bit number with the highest byte first (section 5.1.1) |
| `BaseLib.MemCmp` | kernel/base/baselib.c:30-40 | 0 exactly if the bytes are equal, and else the difference of the first that differ |
| `BaseLib.MemMem` | kernel/base/baselib.c:119-152 | the first occurrence, and none exactly if there is none or the needle is empty |
| `BaseLib.SkipIsSafe` | kernel/base/baselib.c:134-149 | the longer step of the search passes no occurrence |
| `BaseLib.StrLen` | kernel/base/baselib.c:217-223 | the number of bytes before the first zero |
| `BaseLib.StrStr` | kernel/base/baselib.c:344-347 | the first occurrence of one string in another, where an empty one is found nowhere |
| `BitCounts.HammingWeightIsPopCount` | tools/insn.c:94-102 | the folding of pairs, quads and bytes counts the set bits of every 64-bit word |
| `FindBits.FfsLong` | tools/fls_ffs.h:85-113 | the halving steps find the lowest set bit |
| `FindBits.FfsInt` | tools/fls_ffs.h:123-149 | one more than the lowest set bit, and 0 for 0 |
| `FindBits.FlsWord` | tools/fls_ffs.h:15-41 | one more than the highest set bit, and 0 for 0 |
| `LogicalImmediate.RangeIsRun` | tools/insn.c:1311-1318 | a word that passes the test is one run of ones, from its lowest set bit on |
| `LogicalImmediate.RunIsRange` | tools/insn.c:1311-1318 | every run of ones passes the test |
| `LogicalImmediate.FieldsDecode` | tools/insn.c:1357-1371 | the size, length and rotation that a decoder reads from the fields are those they were made of |
| `ImmediateEncoder.HighGapUnsound` | tools/insn.c:1389-1395 | a 64-bit element with zeros above bit 31 between ones gets fields that stand for another value |
| `LogicalEncoder.EncodeImmediate` | tools/insn.c:1320-1402 | the 64-bit variant fails exactly for the values that no fields stand for, and otherwise its fields stand for the value if and only if its halves are equal, it is one run of ones, or every zero is in the low half; the 32-bit variant fails exactly for the values that no fields stand for or whose ones wrap around all 32 bits, 32 ones excepted, and otherwise its fields stand for the value if and only if it is not 32 ones |
| `ImmediateNarrow.Doubling` | tools/insn.c:1329-1337 | fields stand for a value in a 32-bit instruction if and only if they stand for the value in both halves in a 64-bit one |
| `ImmediateNarrow.WrappedEncodable` | tools/insn.c:1376-1395 | of the values that the 32-bit variant refuses for their ones around the end, exactly those whose zeros are one run have fields |
| `ImmediateNarrow.OuterBitsMissed` | tools/insn.c:1376-1395 | the value with the two outer bits set has fields and is refused |
| `LogicalInsns.GenLogicalImmediate` | tools/insn.c:1410-1436 | gives up exactly if a register is none or the encoder refuses the value; otherwise the word is the instruction asked for, of its width and on these registers, and a decoder reads the value from it if and only if the encoder is right about the value |
| `InsnFields.FieldRoundTrip` | tools/insn.c:264-315 | what is put into a field is taken out of it, cut to its width |
| `InsnFields.FieldIsStable` | tools/insn.c:264-315 | putting back what a field holds changes nothing |
| `InsnFields.OtherFieldKept` | tools/insn.c:287-315 | writing a field leaves the fields beside it |
| `InsnFields.FieldPlaces` | tools/insn.c:264-315 | every field is the bits of the word that section C4.1 of DDI 0487 draws |
| `InsnFields.KindKept` | tools/insn.c:1154-1167 | setting the offset of a branch leaves it the same kind of branch |
| `InsnFields.OffsetRoundTrip` | tools/insn.c:1127-1167 | the offset read back is the one set if and only if it is a multiple of 4 in the range of the branch |
| `InsnFields.BranchGoesThere` | tools/insn.c:1127-1167 | a branch that was given an offset in its range goes that far, by the instruction set's own reading of it |
| `PatchExtra.WriteExtras` | tools/patch.c:616-643 | the items lie behind each other with the guard at the end, and no other byte changes |
| `PatchExtra.ItemsReadBack` | tools/patch.c:243-253 | wherever items and guard were written, both readers find exactly those items, up to the first of type none |
| `PatchExtra.ParseItems` | tools/patch.c:243-253 | the loop of the tool lists the items of the scan that stops at a missing magic |
| `PatchExtra.OnEachExtraItem` | kernel/base/predata.c:85-108 | calls back on the items in order up to the first that fails, with their arguments and contents, and returns its code |
| `PatchExtra.ToolReadsPrefix` | kernel/base/predata.c:85-108 | the tool lists a prefix of what the kernel visits, and all of it if and only if every visited header carries the magic |
| `PatchAdditional.WriteAdditional` | tools/patch.c:597-614 | accepts the strings if and only if each is a short pair and together they fit, and writes each behind its length |
| `PatchAdditional.ReadAdditional` | tools/patch.c:159-174 | the reading loop puts every byte back that it has terminated a string with, and gives the strings that the area holds |
| `PatchAdditional.AdditionalRoundTrip` | tools/patch.c:159-174 | every accepted list of strings is read back |
| `PatchAdditional.FullAreaSpills` | tools/patch.c:606-613 | the byte behind the area is overwritten if and only if the strings fill the area |
| `PatchAdditional.AreaCanBeFull` | tools/patch.c:597-614 | there are strings that are accepted and fill it |
| `PatchImage.PatchUpdate` | tools/patch.c:480-645 | the output is the kernel with its window and its first branch to the engine, zeros, the engine with its filled-in preset, the items and the guard; there is none exactly if the strings are not accepted |
| `PatchImage.StartIsPastOutput` | tools/patch.c:486-488 | the start offset is a page boundary past the whole output and past the kernel's memory, and the first such |
| `PatchLayout.KernelInOutput` | tools/patch.c:534-595 | every byte of the output below the kernel's length is the branch's at the first instruction, the edited copy's in the window, and the kernel's own everywhere else |
| `PatchLayout.EntryReachesEngine` | tools/common.c:11-25 | the processor that executes the output's first branch reaches the engine's code, one page behind the start of its preset, if and only if that is less than 2^27 bytes away |
| `PatchLayout.EngineInOutput` | tools/patch.c:480-614 | every byte behind the kernel's last page is the engine's own but for the setup structure and the strings |
| `PatchLayout.SetupInOutput` | kernel/include/preset.h:224-247 | sizes, offsets and the saved header lie in the output at the places of their fields |
| `PatchLayout.StringsInOutput` | tools/patch.c:597-614 | every string lies in its area behind its length |
| `PatchLayout.RestOfOutput` | tools/patch.c:616-643 | zeros fill the kernel's last page, and behind the engine are the items, the empty one and nothing more |
| `PatchLayout.ItemLayout` | kernel/include/preset.h:177-195 | the header of an item has its fields at their places, and its arguments and contents follow |
| `PatchRuns.ParseImage` | tools/patch.c:194-256 | finds the preset, checks the saved size, restores the header and lists the items, or names the error |
| `PatchRuns.ParsesBack` | tools/patch.c:194-256 | a patched image parses back to the length of its kernel and its items |
| `PatchRuns.ViewIsKernel` | tools/patch.c:234-234 | and to the kernel that was patched, with the edited window |
| `PatchRuns.MagicIsFoundByPreset` | tools/patch.c:72-76 | the preset is found in its place if and only if its magic does not occur before |
| `PatchRuns.KernelVisitsSameItems` | kernel/base/predata.c:85-108 | the kernel visits the items that the tool lists |
| `PatchRuns.AdditionalReadBack` | tools/patch.c:136-175 | the strings of an output are read back |
| `PatchRuns.Unpatch` | tools/patch.c:659-678 | gives the kernel with its saved header, if there is a preset |
| `PatchRuns.UnpatchIsView` | tools/patch.c:659-678 | unpatching an output gives the kernel that parsing shows |
| `PatchRuns.KernelBytes` | tools/patch.c:534-541 | it differs from the one that was patched only in the window and the first eight bytes |
| `PatchRuns.RunRestores` | tools/patch.c:362-678 | after any number of updates, unpatching gives a kernel of the first length in which every byte is as it was that no update has written |
| `PatchRuns.FreshIsItsView` | tools/patch.c:217-224 | an image without a preset is its own kernel |
| `PatchRuns.DisablePiMap` | tools/patch.c:339-360 | the first occurrence of the pattern is replaced, if there is one |
| `PatchRuns.PiMapTouches` | tools/patch.c:339-360 | only the third word of the first occurrence of the pattern changes |
| `PatchLayout.PiMapTakesFirst` | tools/patch.c:342-352 | which is a CSEL, and becomes a move of the register that the CSEL takes if its condition holds |
| `Kallsyms.Kallsym.BuildTokenTable` | tools/kallsym.c:180-185 | the table holds the place of every token |
| `Kallsyms.TokensFound` | tools/kallsym.c:180-185 | the tokens are found where they were written |
| `Kallsyms.TableBuilt` | tools/kallsym.c:180-185 | so that the table built from them points at every token |
| `Kallsyms.Kallsym.FindTokenIndex` | tools/kallsym.c:195-228 | finds the index in one of the two byte orders, and fails exactly if it is in the image in neither |
| `Kallsyms.IndexHoldsTokens` | tools/kallsym.c:195-228 | an index found holds the distance of every token |
| `Kallsyms.Kallsym.DecompressSymbolName` | tools/kallsym.c:555-573 | gives the type, the expanded name and the place of the next one |
| `Kallsyms.NamesReadBack` | tools/kallsym.c:555-573 | every name that was encoded with the tokens is expanded to itself, from its own place |
| `Kallsyms.Kallsym.GetSymbolOffset` | tools/kallsym.c:973-990 | the offset of the first symbol of that name, or -1 if there is none |
| `Kallsyms.Kallsym.GetSymbolOffsetAndSize` | tools/kallsym.c:945-971 | and its distance to the next different offset |
| `Kallsyms.Kallsym.SizeIsDistance` | tools/kallsym.c:958-964 | which is that of the first later symbol that does not share the offset, and 0 if all do |
| `Kallsyms.Kallsym.OffsetReadBack` | tools/kallsym.c:929-943 | the offset of a symbol is the one that the image holds for it, relative or as an address, in either width and byte order |
| `Kallsyms.LookupFindsFirst` | tools/kallsym.c:973-990 | in an image that holds encoded names the lookup finds the first symbol of the name, if there is one |
| `LinkedRings.ListAdd` | kernel/linux/include/linux/rculist.h:70-99 | a ring with the new node behind the head is left |
| `LinkedRings.ListDel` | kernel/linux/include/linux/rculist.h:146-150 | a ring without the node is left, and the node still points forward |
| `LinkedRings.ListReplace` | kernel/linux/include/linux/rculist.h:188-195 | a ring with the new node in the old one's place is left |
| `Kstorage.Store.TryAllocGroup` | kernel/patch/common/kstorage.c:34-44 | group numbers are given out in order, and none when they run out |
| `Kstorage.Store.GroupSize` | kernel/patch/common/kstorage.c:46-50 | the counter is the number of entries in the list |
| `Kstorage.Store.Write` | kernel/patch/common/kstorage.c:52-113 | the group's list becomes that with the key written, in front if it is new and in place if not; other groups, and all after an error, stay |
| `Kstorage.Store.Remove` | kernel/patch/common/kstorage.c:219-252 | the key's entry is gone, and the answer does not tell whether it was there |
| `Kstorage.Store.ReadEntry` | kernel/patch/common/kstorage.c:157-183 | the bytes of the key's entry from the offset on, cut to the length; an offset behind the end gives a negative length |
| `Kstorage.Store.ListIds` | kernel/patch/common/kstorage.c:186-216 | the first keys of the group, as many as fit, each once |
| `Kstorage.Store.OnEach` | kernel/patch/common/kstorage.c:134-154 | visits the entries up to the first whose callback fails, and returns 0 all the same |
| `Kstorage.Store.RunOps` | kernel/patch/common/kstorage.c:52-252 | any run of writes and removals leaves a group whose list, looked up, is the map after the same run, whose counter is its size, and all other groups as before |
| `KeyedStore.WrittenIsUpdate` | kernel/patch/common/kstorage.c:52-113 | a write is a map update that keeps keys distinct, and grows the list exactly if the key is new |
| `KeyedStore.RemovedIsRemoval` | kernel/patch/common/kstorage.c:219-252 | a removal is that of the map |
| `KeyedStore.RunRefinesMap` | kernel/patch/common/kstorage.c:52-252 | the list form refines a map over every run of operations |
| `HwBreakpoint.HitsCounted` | kpms/demo_accessOffstinlineHook/hw_breakpoint.c:195-304 | whatever moves succeed or fail, the count is the number of hits at the original address, and the event sits there or at the next instruction, four bytes on |
| `HwBreakpoint.HitsAlternate` | kpms/demo_accessOffstinlineHook/hw_breakpoint.c:195-304 | while every move succeeds, hits alternate between the two addresses and every second one is counted |
| `HwBreakpoint.ArmedUnlessMoveFails` | kpms/demo_accessOffstinlineHook/hw_breakpoint.c:195-304 | the breakpoint stays armed if and only if every hit at the original address is followed by a successful move |
| `HwBreakpoint.Breakpoints.Handler` | kpms/demo_accessOffstinlineHook/hw_breakpoint.c:195-304 | a hit changes only the slot that owns the event, and the event with it |
| `HwBreakpoint.Breakpoints.SetForPid` | kpms/demo_accessOffstinlineHook/hw_breakpoint.c:377-577 | takes the first free slot and registers its event, or names the error and changes nothing |
| `HwBreakpoint.EventAsAsked` | kpms/demo_accessOffstinlineHook/hw_breakpoint.c:446-482 | the event watches reads and writes as its type asks, or execution only, and its length doubles from size to size |
| `HwBreakpoint.Breakpoints.Clear` | kpms/demo_accessOffstinlineHook/hw_breakpoint.c:579-611 | an enabled slot gives its event back, and nothing else changes |
| `HwBreakpoint.Breakpoints.ClearAll` | kpms/demo_accessOffstinlineHook/hw_breakpoint.c:613-624 | leaves the kernel no event |
| `HwBreakpoint.Breakpoints.Run` | kpms/demo_accessOffstinlineHook/hw_breakpoint.c:195-624 | over any run of settings, hits and clearings every slot is what the hits since it was set make of it, and owns a live event exactly while it is enabled |
| `HwBreakpoint.CountIsExplained` | kpms/demo_accessOffstinlineHook/hw_breakpoint.c:195-304 | so that the count of every execute breakpoint is the number of its hits at the original address |

## Left out

- Tlsf.Control.AddPool: a pool of exactly 2^32 usable bytes passes the size test but has no list (`TlsfMapping.MappingInRange`), and is excluded; `tlsf_remove_pool` and `tlsf_destroy` are not modelled.
- Tlsf.Control.Realloc: what the allocator does with a heap that it has broken itself is not followed any further.
- TlsfMapping.GoodFit: the bitmap scan that follows the mapping is `Tlsf.Control.SearchSuitableBlock`.
- Memory is a map of 64-bit words at aligned addresses, the control structure's heads and bitmaps are fields beside it, and `tlsf_ffs` and `tlsf_fls` are their mathematical counterparts.
- HookWindow.RunSimulated: a run is followed while it uses no literal load, does not read X17 (nor X30 after a call) and jumps by register only out of the window; a callee is taken to return in both runs, and what it leaves different in memory is a relation that the caller of the theorem chooses and that every later step of the run has to respect.
- RelocatedBlocks.BlockRuns: a relocated literal load does not have the effect of the original (`RelocatedBlocks.LiteralAddressIsShifted`), so it is excluded here and in `HookWindow.StepSimulated`.
- The A64 machine: instructions that write the program counter other than those of the relocation tables, RET, BR and BLR (ERET, RETAA and its like, exceptions, BC.cond) fall through as ordinary ones.
- Hook.HookT.HookPrepare: a window that does not fit the relocation buffer is excluded, with the exact condition in `HookWindow.FitsBuffer`.
- HookEngine.Engine.Wrap: assumes that the windows of hookable functions, and the paths that resolution takes to them, do not overlap each other or the slots' buffers, that they fit the relocation buffer, and that resolution ends.
- HookEngine.Engine.UnwrapRemove: hooks installed by `hook` and removed by `unhook`, which share the pool but have no chain, are not modelled; neither are the cache and permission steps around each write.
- HookTransit.Transit: the scan from the transit code back to its chain is not modelled.  For inline hooks the copy of a transit function is one check of its length against 0x60; the 97 words of an accepted function stay in the slot (`HookPool.InlineWordsStay`).
- FpHook.Run: requests whose transit function has 95 words or more are left out of runs, since the state can be inconsistent after one.
- Paging.KernelMap.GetOrCreatePte: clearing a new table is one step, pages for tables are fresh, aligned and there are enough of them, and 64 KiB pages have at most three levels; a failing allocation is not modelled.  What the processor translates is stated where the first table is full, since otherwise the walks use another entry (`Translation.FirstIndexAgreesExactly`).
- Paging.KernelMap.MapRange: the range is not mapped before; copying the engine into it, `prot_myself` and the TLB maintenance are not modelled.
- FindBits.FfsInt: negative arguments, whose sign is shifted in; the encoder passes element sizes.
- InsnFields.FieldRoundTrip: the fields are those in one piece; ADR, whose offset is split in two, is not modelled, nor are the other generators of instructions.
- PatchExtra.OnEachExtraItem: the headers and contents lie in the image, and sizes are not negative.
- PatchAdditional.ReadAdditional: versions up to 0xa04 read the strings from another offset, which is not modelled.
- PatchImage.PatchUpdate: the fields of the preset and the places in the kernel that come from the symbol table are parameters; kernel and banner checks, the UNCOMPRESSED_IMG prefix, other byte orders, reading files and sorting the items are not modelled.
- PatchRuns.ParseImage: the array of 32 items is not bounded here, and negative sizes in a preset are the error of a length that overruns.
- PatchRuns.RunRestores: the updates apply to images in which the preset's magic is found in its place, as `PatchRuns.MagicIsFoundByPreset` says when it is.
- Kallsyms.Kallsym.GetSymbolOffset: where the tables lie in the image is found by heuristics that are not modelled; names are taken to fit their buffers, which the original does not check.
- Kstorage.Store.Write: copies from user memory and readers that run at the same time are not modelled; whether memory can be had is a parameter.
- Kstorage.Store.ReadEntry: offsets and lengths are not negative.
- HwBreakpoint.Breakpoints.SetForPid: a kernel without the interface is not modelled; the parallel arrays are one array of records, initialisation succeeds, and the hit count is unbounded.
- HookRuns.Run and the other runs are sequences; interrupts and other processors between the steps of one request are not modelled.
- SU management, supercalls, the module loader, system-call tables and boot code are not modelled: they move data between interfaces of the kernel.
