# VannaDBG: a verified model

VannaDBG is a small Linux debugger in C. Its parts form one stack: a source view toggles
breakpoints in a debugger, the debugger keeps them in a chained hash map and patches them into the
debuggee through ptrace words, and map and caches live in bump arenas. This project models that
stack in Dafny and proves what it is for.

- `Bits.dfy`: 64-bit wrap-around, bitwise operators, the alignment mask, little-endian words.
- `Arena.dfy`, `ArenaTree.dfy`: the bump arena, and trees of arenas carved out of arenas.
- `BaseArena.dfy`: the push/pop arena with scratch brackets.
- `HashMap.dfy`, `HashMapRuns.dfy`: the chained hash map on the heap, and whole runs of it.
- `Tracee.dfy`: the debuggee as ptrace shows it: bytes, words, an abstract processor, CONT.
- `DebuggerSpec.dfy`, `BreakpointOrder.dfy`, `Transparency.dfy`: what the debugger's operations do,
  on values; breakpoints in any order; the simulation between patched and native run.
- `Debugger.dfy`, `StepView.dfy`: the debugger and the source view as objects, each method proved
  against the value-level operation, so the theorems apply to what the objects hold.
- `AddrRangeCache.dfy`: the sorted address-range cache.
- `LinkedList.dfy`: the OCaml mutable lists.

## How the debuggee is modelled

Memory is a finite map from addresses to bytes. PTRACE_PEEKDATA packs eight bytes and answers -1 for
a word that is not fully mapped; the asserts in the code cannot tell that from a word of all ones,
so both abort (`PeekOk` is the exact condition). A processor (`Cpu`) is any function from process
states to process states with a read set and a write set; `Lawful` says that these footprints are
truthful. Everything else an instruction depends on, the outside world included, is the component
`rest`. An int3 advances the pc by one, whoever put it there. PTRACE_CONT is observed for a number of
instructions: `Running` is a process that has not trapped by then, and since the number is
arbitrary nothing is assumed about termination.

The transparency theorem puts one condition on each command of a session, when it is given:

- `QuietContinue`: the instructions that this continue executes on the native run read and write no
  byte under a breakpoint enabled then (they may fetch, and even overwrite, the byte at their own
  pc); what the program does before a breakpoint is set, after it is removed or after the session
  is its own business;
- `SafeSet`: set is not called on an address that is already enabled, nor on the address just before
  the pc;
- `SafeRemove`: remove is not called on the breakpoint the process is stopped on, the relative
  address given to the map is not another armed breakpoint's absolute one, and a stale disabled
  entry still holds the byte that is in memory.

The last two are exact: `SetExact` and `RemoveExact` prove that the debuggee's view is unchanged if
and only if they hold, and `SessionExact` that in a session of quiet continues no set or remove is
seen by the debuggee if and only if all of them are safe. (The predicates also admit the harmless
case in which the byte that would be lost is itself 0xCC.)

## Where the code falls short of its purpose

The model keeps these as coded, and the lemma named gives the exact condition or a failing input.

- `remove_breakpoint_at_addr` looks up the absolute address but removes the relative one
  (`RemoveExact`, and `BaseUnshares` for load addresses where this is harmless), so the entry set
  stays behind disabled unless the program is loaded at 0 (`RemoveEffect`, `SetRemoveRoundTrip`).
- Two lines at one address, which is what all lines without code get, lose a byte of the program
  (`SharedAddressLosesByte`; `ToggleExact` is the exact condition for one click, `RunAgreesExact`
  for whole runs, in which only the lines clicked matter).
- Binary search misses a range hidden behind one that ends earlier (`NestedRangeMissed`;
  `SearchExact` says exactly when, by the midpoints above a position, which depend on the bounds
  alone, and `RunMissesExactly` for any insertions).
- `arena_alloc` and `arena_scratch` grant requests without the room once the size arithmetic wraps
  (`AllocateExact`, `ScratchExact`; `AllocateIs` and `ScratchIs` are the answer for every size).
- `arena_pop` ignores a pop of the entire content or more (`ExecExact`), and takes back the unrounded size of a push that
  was rounded up (`PopUndoesPush` is the exact condition); and the assert at the end of a
  scratch bracket does not notice a body that dipped below its mark (`DipGoesUnnoticed`;
  `SurvivalExact` is the exact condition).
- `breakpoint_enable` takes a word of all ones for an error, so enabling neighbours can abort in one
  order and not in another (`OrderDecides`; `EnableAllExact` is the exact condition).
- `insert_back` of a chain that already contains nodes of the list makes a loop (`InsertBack`).

## Model

| member | source | states |
|---|---|---|
| Transparency.SessionTransparent | src/core/debugger.c:72-110 | after any session of set, remove and continue commands, each safe when it is given, the view through the overlay is the native state after exactly the instructions executed; memory is native memory with int3 at exactly the enabled addresses and the entries hold the native bytes |
| Transparency.AttachedSessionTransparent | src/core/debugger.c:72-110 | the same measured from a freshly attached process, against its own run |
| Transparency.SessionExact | src/core/debugger.c:72-110 | in a session whose continues are quiet, no set or remove changes what the debuggee sees if and only if each of them meets its condition |
| Transparency.ContinueTransparent | src/core/debugger.c:105-110 | one continue, if the instructions it executes keep off the breakpoints enabled then, moves the view along the native run by the instructions executed, runs through no breakpoint, keeps the same ones armed, and stops only at one of them or just past a native int3 |
| Transparency.ContinueEnds | src/core/debugger.c:105-110 | continue fails if and only if stepping over does, has not returned if and only if the budget ends before the next armed address or native int3, and changes no entry but the saved byte of the one stepped over |
| Transparency.RunTransparent | src/core/debugger.c:107-109 | PTRACE_CONT on patched memory follows the native run instruction for instruction up to the first armed address or native int3, if the instructions up to there keep off the armed bytes; it stops exactly if there is one within the instructions observed |
| Transparency.StepOverTransparent | src/core/debugger.c:88-103 | at a trap exactly one native instruction is executed from the breakpoint, the same set stays armed, the entry saves the byte the instruction left there even if it overwrote itself and no other entry changes; the exact condition under which it aborts; no change without a trap |
| Transparency.PatchedStep | src/core/debugger.c:98-100 | away from armed addresses an instruction does the same on patched and on native memory and leaves the patched bytes alone |
| Transparency.OneCommand | src/core/debugger.c:72-110 | each safe command keeps the view on the native run |
| Transparency.SessionAppend | src/core/debugger.c:72-110 | commands run one after the other until one fails or does not return |
| DebuggerSpec.SetExact | src/core/debugger.c:72-77 | set always keeps every enabled int3 in place and enables exactly its address; the debuggee's view is unchanged if and only if the address was not enabled (or held a native int3) and is not just before the pc |
| DebuggerSpec.RemoveExact | src/core/debugger.c:79-86 | remove disables the absolute address and drops the relative one; the view is unchanged if and only if the process is not stopped there and no other armed breakpoint is dropped |
| DebuggerSpec.SetEffect | src/core/debugger.c:72-77 | set succeeds if and only if the word at the 64-bit absolute address is readable; it writes the one byte 0xCC, files a complete entry (address, pid, the byte that was there, enabled) and leaves every other byte and entry |
| DebuggerSpec.RemoveEffect | src/core/debugger.c:79-86 | remove succeeds if and only if the absolute address has an entry, enabled or not, whose word is readable; it writes the one saved byte back and drops exactly the relative key; the absolute entry, if another, stays with only its flag cleared, all others as they were |
| DebuggerSpec.SetRemoveRoundTrip | src/core/debugger.c:72-86 | set and then remove restores the process exactly and leaves a disabled entry behind unless the program is loaded at 0, which decides whether the same remove succeeds a second time |
| DebuggerSpec.DisarmNeverAborts | src/core/breakpoint.c:40-46 | the assert in disable cannot fire for an armed breakpoint whose word is mapped |
| BreakpointOrder.AnyOrderRestores | src/core/breakpoint.c:23-47 | enabling any distinct addresses and disabling them in any order trips no assert in disable and restores memory byte for byte although the windows overlap |
| BreakpointOrder.OrderIndependent | src/core/breakpoint.c:23-38 | two orders that both get through (EnableAllExact says which do) patch and save the same bytes |
| BreakpointOrder.EnableAllExact | src/core/breakpoint.c:23-38 | enabling any addresses in turn gets through if and only if each word is mapped and holds a byte that is not 0xFF by nature or by an int3 placed earlier |
| BreakpointOrder.OrderDecides | src/core/breakpoint.c:26-27 | two neighbouring addresses that abort in one order and get through in the other |
| TraceeModel.PatchIsByteWrite | src/core/breakpoint.c:33-36 | read word, mask, or, store word changes the one byte at the address and nothing else |
| TraceeModel.PeekOkExact | src/core/breakpoint.c:26-27 | the assert on the peeked word passes exactly when the word is mapped and not all ones |
| Bits.PatchLowByte | src/core/breakpoint.c:33-35 | on the packed little-endian word, masking and or-ing replaces byte 0 and the saved byte is byte 0 |
| TraceeModel.Tracee.Cont | src/core/debugger.c:108-109 | running to the next trap, for every number of instructions observed |
| DebuggerModel.Enable | src/core/breakpoint.c:23-38 | aborts exactly on an unreadable word; otherwise saves the byte, writes int3 there alone and marks the block enabled |
| DebuggerModel.Disable | src/core/breakpoint.c:40-47 | aborts exactly on an unreadable word; otherwise writes the saved byte back alone and marks the block disabled |
| DebuggerModel.Debugger.SetBreakpointAtAddr | src/core/debugger.c:72-77 | the heap operation is the value-level set and takes 48 arena bytes for a new entry and none for an old one; it runs out of memory exactly for a new entry without that room |
| DebuggerModel.Debugger.RemoveBreakpointAtAddr | src/core/debugger.c:79-86 | the heap operation, through a pointer taken before the entry is unlinked, is the value-level remove |
| DebuggerModel.Debugger.StepOverBreakpoint | src/core/debugger.c:88-103 | the heap operation is the value-level step-over and keeps every value block |
| DebuggerModel.Debugger.ContinueExecution | src/core/debugger.c:105-110 | the heap operation is the value-level continue |
| DebuggerModel.Debugger.Create | src/core/debugger.c:31-42 | 100 buckets are taken from the arena, 800 bytes, or the assert fails; the table starts empty, hashed by addr_hash |
| DebuggerModel.AddrHashInvolution | src/core/debugger.c:16-21 | hashing an address twice gives the address back |
| DebuggerModel.AddrHashInjective | src/core/debugger.c:16-21 | no two addresses share a hash value |
| DebuggerModel.AddrHashParts | src/core/debugger.c:16-21 | the upper 32 bits stay and the lower ones are their xor with the upper ones |
| StepViewModel.ViewTransparent | src/ui/step_view.c:127-138 | a run of clicks and continues keeps the debuggee on its undebugged run if every click that goes through is on an unshared line and not just before the pc, and every continue keeps off the breakpoints enabled then; nothing is asked of lines that are not clicked |
| StepViewModel.StepView.RunStaysNative | src/ui/ui.c:105-135 | the same for the objects themselves: after any such clicks and space presses the process held by the debugger, whose breakpoints are blocks of the linked hash map patched in word by word, is on its undebugged run, unless the run ends as StepView.Run says |
| StepViewModel.RunAgreesExact | src/ui/step_view.c:127-138 | in every state of a run a line's flag is set exactly when its address is enabled, and every enabled address is some line's, if and only if every click that goes through is on a line that shares its address with no other |
| StepViewModel.ToggleExact | src/ui/step_view.c:127-138 | one toggle keeps that agreement if and only if the line shares its address with no other |
| StepViewModel.ToggleEffect | src/ui/step_view.c:127-138 | a toggle flips the one flag and no other line, arms the absolute address or disarms it and the relative one, and fails exactly on an unreadable word or a missing entry |
| StepViewModel.RunFlipsFlags | src/ui/step_view.c:127-138 | after any run a flag is flipped exactly if its line was clicked an odd number of times |
| StepViewModel.RunEndsAgreed | src/ui/step_view.c:127-138 | the state a run ends in is among those in which flags and enabled breakpoints agree |
| StepViewModel.ClickExact | src/ui/step_view.c:127-138 | a click on an unshared line meets its condition if and only if its address is not the one just before the pc |
| StepViewModel.ToggleCallsAreSound | src/ui/step_view.c:133-137 | while they agree, set never meets an enabled address, the null assert in remove never fires, and a toggle fails exactly on an unreadable word |
| StepViewModel.BaseUnshares | src/core/debugger.c:79-86 | a line with an address of its own is unshared when the program is loaded at 0 or above that address, whatever the other lines share |
| StepViewModel.SharedAddressLosesByte | src/dwarf/conversion.c:177 | two lines at one address: set, set, clear leaves an int3 that no enabled entry covers, whatever the byte was |
| StepViewModel.RunIsSafeSession | src/ui/step_view.c:127-138 | a safe run of the view is a session of the debugger made of safe commands |
| StepViewModel.RunIsSession | src/ui/step_view.c:64-67 | every run of clicks and continues, safe or not, is a session of the debugger with the same outcome |
| StepViewModel.StepView.ClickLine | src/ui/step_view.c:127-138 | the click on the objects is the value-level toggle; it takes 48 arena bytes exactly if it adds an entry, and runs out of memory exactly without that room |
| StepViewModel.StepView.PressSpace | src/ui/step_view.c:64-67 | the space key is the value-level continue |
| StepViewModel.StepView.Run | src/ui/ui.c:105-135 | delivering clicks and space presses to the objects one by one is the value-level run, event for event; it runs out of memory if and only if the entries that the run adds do not all fit at 48 bytes each, and then at the first click that has to add one without room, the events before it being handled |
| StepViewModel.RunSplits | src/ui/ui.c:105-135 | the rest of a run starts where its beginning ended, for outcome and entries added alike |
| StepViewModel.SpacesNeverRunOut | src/ui/step_view.c:64-67 | a run of the space key alone never runs out of memory |
| HashMapRuns.RunsLikeFiniteMap | src/domain/hashmap.h:44-103 | for any hash and equivalence, every sequence of puts, gets and removes answers like the same sequence on a finite map over the classes and ends representing that map |
| HashMapRuns.LawfulKeysPick | src/domain/hashmap.h:11-12 | every lawful equality has a choice of one key per class |
| HashMapRuns.CreateAndReplay | src/domain/hashmap.h:29-103 | a newly created table answers every sequence like a finite map that starts empty; it gets through if and only if all new entries fit at 24 bytes plus the rounded key and value each, and the arena ends at exactly that offset |
| HashMapRuns.Replay | src/domain/hashmap.h:44-103 | running the sequence on the linked entries gives those answers and that table; it stops early exactly at a put of a key no stored key equals when the entries added so far leave no room for one more; keys not removed keep their very value block, blocks of removed keys never come back even if the key is put again, and every block holds the value last put there before its key was removed |
| HashMapRuns.AllDoneExact | src/domain/hashmap.h:44-68 | a run gets through if and only if the entries it adds fit |
| HashMapModel.HashMap.Put | src/domain/hashmap.h:44-68 | an equal key's block is overwritten in place, otherwise one entry with a fresh block is added in front of the chain hash % bucket_count and the arena moves by exactly its size; false exactly when the arena is full |
| HashMapModel.HashMap.Get | src/domain/hashmap.h:70-82 | the block stored under an equal key, null exactly if there is none |
| HashMapModel.HashMap.Remove | src/domain/hashmap.h:84-103 | exactly the entry with an equal key is unlinked, no value block is touched |
| HashMapModel.HashMap.Create | src/domain/hashmap.h:29-42 | all buckets empty; null exactly when the arena has no room for them |
| HashMapModel.UnlinkTable | src/domain/hashmap.h:91-99 | dropping one entry keeps every other entry in its bucket, keys unequal, blocks distinct |
| HashMapModel.InsertTable | src/domain/hashmap.h:59-67 | adding an entry in front keeps the same |
| HashMapModel.KeysDistinct | src/domain/hashmap.h:50-56 | no two stored keys are ever equal |
| HashMapModel.PlacesDistinct | src/domain/hashmap.h:66-67 | chains are disjoint and visit no entry twice |
| AddrRangeCache.InsertedAllIsStableSort | src/dwarf/addr_range_cache.c:24-36 | repeated insertion yields the stable sort of the inserted ranges: sorted by start, a permutation, ties in insertion order |
| AddrRangeCache.StableSortUnique | src/dwarf/addr_range_cache.c:27-36 | there is only one such sequence |
| AddrRangeCache.SearchExact | src/dwarf/addr_range_cache.c:41-58 | the search finds nothing if and only if every range containing the address is hidden by a midpoint above its position (which depends on the bounds alone) that starts in time and ends too early; what it finds contains the address |
| AddrRangeCache.LookupReturns | src/dwarf/addr_range_cache.c:39-59 | in any array lookup returns position i if and only if range i contains the address and no midpoint above i contains it or starts on the wrong side of it |
| AddrRangeCache.RunMissesExactly | src/dwarf/addr_range_cache.c:13-59 | the same after any insertions: lookup misses the inserted ranges that contain the address if and only if each is hidden at its place in the stable sort |
| AddrRangeCache.LookupAgreesUnlessHidden | src/dwarf/addr_range_cache.c:39-59 | binary search agrees with a linear scan unless the containing range is hidden |
| AddrRangeCache.NestedRangeMissed | src/dwarf/addr_range_cache.c:50-55 | nested ranges for which it does not agree |
| AddrRangeCache.RunFindsContaining | src/dwarf/addr_range_cache.c:13-59 | after any compatible insertions a containing range is found exactly when one was inserted |
| AddrRangeCache.RunFindsTheRange | src/dwarf/addr_range_cache.c:13-59 | with disjoint ranges the very range that contains the address is found |
| AddrRangeCache.ProbesBound | src/dwarf/addr_range_cache.c:42-56 | every probe is inside the array and there are at most floor(log2 size) + 1 |
| AddrRangeCache.GrowthCost | src/dwarf/addr_range_cache.c:15-22 | n insertions copy fewer than 2n elements, arena bytes are 32 + 24 * (2 * capacity - c), a grown capacity is below 2n |
| AddrRangeCache.Cache.Insert | src/dwarf/addr_range_cache.c:13-37 | the contents become the insertion of the range, across growth; fails exactly when full and the arena has no room, then unchanged |
| AddrRangeCache.Cache.InsertAll | src/dwarf/addr_range_cache.c:13-37 | the array after any insertions is their stable sort, with fewer than two ranges copied per insertion and exact arena use, until one fails for lack of room |
| AddrRangeCache.Cache.Find | src/dwarf/addr_range_cache.c:39-59 | the loop computes the search, returns exactly the position that no midpoint above it keeps the search from, and probes the positions of ProbesBound |
| AddrRangeCache.Cache.Create | src/dwarf/addr_range_cache.c:3-11 | empty cache, arena use, null exactly when there is no room |
| ArenaTree.RunKeepsBlocksDisjoint | src/domain/arena.h:40-71 | after any run over a tree of arenas all live blocks of parents, children and siblings are pairwise disjoint in word-scaled addresses; offsets are multiples of 8 within capacity |
| ArenaTree.PerformKeeps | src/domain/arena.h:40-71 | every operation on any arena of the tree keeps the layout |
| ArenaTree.PerformEffect | src/domain/arena.h:40-71 | on blocks: an allocation adds one, a carving none, and a reset retires exactly the blocks of the arena and its descendants |
| ArenaTree.PerformOnArenas | src/domain/arena.h:40-71 | whatever arena one looks at afterwards: the addressed one has its offset up by the rounded size and one item more, a carving leaves there a new empty arena over exactly the stretch taken, a reset empties it and leaves none below, arenas on the way keep region and number of items, all others are untouched |
| ArenaTree.PerformSucceeds | src/domain/arena.h:45-62 | an operation succeeds if and only if its path names an arena and the rounded size fits there (or the sum wraps) |
| ArenaTree.RunAppend | src/domain/arena.h:40-71 | a run goes on from where it was with each further operation |
| ArenaTree.RunKeepsLiveBlock | src/domain/arena.h:68-71 | a block stays in place through any run that resets no arena above it |
| ArenaTree.BlocksDisjoint | src/domain/arena.h:48-58 | any two live blocks occupy disjoint byte ranges |
| ArenaTree.LargeRequestsAreHonest | src/domain/arena.h:45-62 | requests up to 2^62 bytes never wrap, in any run |
| ArenaModel.AllocateExact | src/domain/arena.h:40-52 | the arena answers honestly if and only if size <= 2^64 - 8 - offset |
| ArenaModel.ScratchExact | src/domain/arena.h:54-66 | the same for carving, with the page as unit |
| ArenaModel.AllocateIs | src/domain/arena.h:40-52 | the whole answer of an allocation for every 64-bit size: refused exactly without room for the rounded size, else base + 8 * offset and the offset up by it; the exact result when a sum wraps |
| ArenaModel.ScratchIs | src/domain/arena.h:54-66 | the whole answer of a carving: the child is empty, starts where the parent was and has the rounded size as capacity |
| ArenaModel.ScratchKeeps | src/domain/arena.h:54-66 | the child's region is exactly the stretch taken from the parent |
| ArenaModel.Arena.Alloc | src/domain/arena.h:40-52 | the object's operation is the value-level one |
| ArenaModel.Arena.CarveScratch | src/domain/arena.h:54-66 | likewise, returning the child by value |
| ArenaModel.Arena.Reset | src/domain/arena.h:68-71 | only the offset goes back to 0 |
| Bits.AlignUpExact | src/domain/arena.h:20-23 | the mask gives the least multiple of the power of two at or above n if and only if the addition does not wrap, and 0 otherwise |
| Bits.AlignUpIdempotentMonotone | src/domain/arena.h:42-43 | aligning is idempotent and monotone where it does not wrap |
| BaseArena.BracketRestores | ui_c/src/base/base_arena.c:83-93 | a bracket whose pops stay above its mark, nested ones included, trips no assert in pop_to, ends exactly as it began, and keeps every block live and disjoint in all states between |
| BaseArena.SurvivalExact | ui_c/src/base/base_arena.c:77-93 | the live blocks survive every state if and only if none falls below the end of the newest of them |
| BaseArena.FloorKeepsAll | ui_c/src/base/base_arena.c:42-93 | while no state falls below a floor, blocks ending at or below it stay live and none overlap |
| BaseArena.DipGoesUnnoticed | ui_c/src/base/base_arena.c:79 | from any nonempty arena with a whole number of words a body that resets and refills hands everything out again without tripping the assert |
| BaseArena.PopUndoesPush | ui_c/src/base/base_arena.c:67-75 | pop undoes push if and only if the size is 0, or it is a whole number of words and something lay below |
| BaseArena.ExecExact | ui_c/src/base/base_arena.c:42-93 | the outcome of every command: a push fails exactly without room, a pop never, a pop to a position exactly upwards, and then exactly the blocks ending above are retired; a bracket is its body and a pop to its mark |
| BaseArena.ExecAllAppend | ui_c/src/base/base_arena.c:83-93 | commands run one after the other until one fails |
| BaseArena.StackArena.Push | ui_c/src/base/base_arena.c:42-54 | the object's push is the value-level one |
| BaseArena.StackArena.Pop | ui_c/src/base/base_arena.c:67-75 | the object's pop is the value-level one and never fails |
| BaseArena.StackArena.PopTo | ui_c/src/base/base_arena.c:77-81 | fails exactly upwards, otherwise retires the blocks above |
| BaseArena.StackArena.Reset | ui_c/src/base/base_arena.c:62-65 | pops to 0 and never fails |
| BaseArena.StackArena.ScratchEnd | ui_c/src/base/base_arena.c:90-93 | pops to the mark, failing exactly if the offset fell below it |
| LinkedList.InsertBack | ocaml-eval/src/basic/basic_linkable.ml:22-32 | keeps the head, changes only the last node's link, and the outcome ends as the old nodes followed by the new chain if and only if the two share no node |
| LinkedList.InsertAfter | ocaml-eval/src/basic/basic_linkable.ml:11-15 | splices one node between its neighbours, leaves all other links alone |
| LinkedList.InsertFront | ocaml-eval/src/basic/basic_linkable.ml:17-20 | the new node in front of the unchanged list |
| LinkedList.ChainDistinct | ocaml-eval/src/basic/basic_linkable.ml:23-32 | a list that ends visits no node twice |

## Left out

- Real ptrace, waitpid, signals and process exit: the debuggee is the explicit machine above; other ptrace failures than an unmapped word do not occur.
- `src/core/registers.c`: the pc is a field; the register tables are fixed linear scans.
- `src/dwarf/conversion.c`: the address of a line is a parameter `find`; reading ELF and DWARF data is not part of this model.
- Rendering, windows and input devices: only the toggle, the space key and the loop that delivers them are modelled.
- The U key (`src/ui/step_view.c:57-62`): a raw PTRACE_CONT that neither steps over the breakpoint nor waits for the process to stop, so the process would run while later events arrive; events here go from stop to stop.
- mmap and munmap, `arena_destroy`, `arena_release`: where the mapping landed is a parameter, assumed to end below 2^64 even when its size is scaled by 8.
- Containment of a block in the mapped bytes: addresses are base + 8 * offset, so it is stated for offsets and for the scaled extent, not for the mapping.
- `bucket_count` 0, a cache with initial capacity 0 and a lookup in an empty cache: undefined in C (division by zero, writing and reading out of bounds), so they are preconditions.
- Key, value and initial array sizes above 2^62 bytes: objects of that size do not exist, so the hash map and the cache take this as given; the arenas themselves are modelled for all sizes.
- Contents of arena memory: an allocation is an address and a size; Dafny objects stand for what is stored there.
- A use of an arena carved out before its parent was reset: the tree no longer names it.
- Builds with asserts compiled out, the `comparisons` counter and all printing.
- `src/domain/slice.h`, strings and timing helpers: they would only add easy members.
- `print_list` and the expect test of the OCaml file.
