# Models and proofs for the systems labs

Each group of files follows one program of the labs. Code that changes state in place is a class whose methods are
proved equal to functions on values; the properties are then proved about those functions, for all inputs and all runs.

| files | program | what is proved |
|---|---|---|
| `Allocator`, `HeapModel`, `HeapMemory`, `HeapTheorems`, `HeapRuns`, `HeapExact` | lab7 malloc package | the byte-level allocator follows a block-level one; every run keeps the heap well formed and live payloads untouched; which block a call takes, its size, and where the rest goes |
| `Y86Isa`, `Y86Sim`, `Y86Arith` | lab4 simulator | byte-level fetch and execute refine instructions as data; decoding undoes encoding; results, flags and conditions of the arithmetic unit |
| `Y86Asm`, `Y86Correct`, `Y86Lines`, `Y86Meaning` | lab5 assembler | exactly which programs are accepted; relocation is exact; the assembled image runs like the text, address by address and line by line; what each statement does |
| `LruSpec`, `LruCache` | lab8 cache simulator | the parts of an address; ages refine a recency list; inclusion; counters |
| `Ncopy` | lab6 unrolled copy | the routine copies and counts exactly for the lengths from -2^63 + 8 up |
| `JobList`, `Shell`, `JobIds` | lab9 shell | the job table tells the truth about pids and states over every interleaving with SIGCHLD; why the signal is blocked; when job ids repeat |
| `Transpose` | lab8 transposes | all four branches leave the transpose |
| `Rio`, `Sio` | lab10 buffered input, number printing | results do not depend on how reads are split; printing is invertible |
| `Prelude`, `Bytes`, `Words` | shared | options and small predicates, little-endian bytes, 64-bit words |

Conventions of the malloc model: addresses are byte offsets from the start of the heap area, which is 8-aligned; NULL is
offset 0, where no payload can be; `mem.Length` is the heap limit (`MAX_HEAP`, 20 MB, in lab7/config.h line 63) and lies
below 2^31. `brk` counts the bytes handed out by `mem_sbrk`. `mm_init` is called with `brk` at 0. Requests are at most
2^31 - 16 bytes (2^31 - 32 for `mm_realloc`), so that the rounded size fits an `int`. `mm_realloc` follows a null pointer
when it is given NULL and size 0, and when the malloc it falls back on fails; the model's `Fault` stands for that, and
`HeapTheorems.ReallocFaultsExactly` says when it happens.

Where code and documentation disagree the models follow the code:

- `mm_realloc` of NULL rounds the size up before it calls `mm_malloc`, which rounds again.
- `sio_ltoa` prints the least long wrongly, because its negation overflows (`Sio.ReadsBackExactly`).
- `jl` and `jg` after `subq` compare the low 32 bits only (`Y86Arith.SubqConditions`).
- `addq` of twice the least 32-bit number overflows unnoticed (`Y86Arith.AddqFlags`).
- `ncopy` fails for the eight most negative lengths (`Ncopy.WorksExactly`): two run off memory, six copy two or three words.
- `fg` of a job that ends between the lookup and the wait hangs the shell (`Shell.FgCanWaitForZero`, `Shell.ZeroNeverReturns`).
- a job stopped again between SIGCONT and the state that `bg` or `fg` sets is listed as running (`Shell.StopCanBeOverwritten`), and
  only then (`Shell.LateOnlyThen`).
- two jobs can have the same id: `nextjid` starts again at 1 while job 1 is still there (`JobIds.IdsCanRepeat`).
- `load_binfile` accepts only images strictly shorter than memory, since it must see the end of the file.
- `rio_readlineb` leaves the user's buffer unterminated at the end of the input.

Two statements are read in another order than the C text. In the search loop of csim.c, line 50, the array is read before
the bound is tested; the model tests first. In `mm_realloc` line 398 reads the successor's size after two tag writes, which
do not touch it; the model reads it before.

## Model

| member | source | states |
|---|---|---|
| MemoryAllocator.Allocator.InsertFreeBlock | lab7/mm.c:86-103 | appends to the doubly linked free list: mutual links and both ends stay exact, and only the two cells concerned change |
| MemoryAllocator.Allocator.PrevFreeBlock | lab7/mm.c:105-112 | reads the stored 32-bit offset back as an address, or NULL |
| MemoryAllocator.Allocator.NextFreeBlock | lab7/mm.c:114-121 | the same for the forward link |
| MemoryAllocator.Allocator.ReplaceFreeBlock | lab7/mm.c:123-148 | the new cell takes the old one's place in the list; only it and its two neighbours change |
| MemoryAllocator.Allocator.RemoveFreeBlock | lab7/mm.c:150-174 | the list without that cell, order kept; only the two neighbours change |
| MemoryAllocator.Allocator.MemSbrk | lab7/memlib.c:58-69 | moves brk and returns the old one, or -1 with nothing changed when negative or beyond the limit |
| MemoryAllocator.Allocator.MemResetBrk | lab7/memlib.c:48-51 | brk is back at the start |
| MemoryAllocator.Allocator.ExtendHeap | lab7/mm.c:176-206 | a larger last free block (merged with a free last block) exactly when the limit allows; the heap stays valid and payloads keep their bytes |
| MemoryAllocator.Allocator.MmInit | lab7/mm.c:211-235 | prologue, epilogue and one free chunk form a valid heap, or -1 exactly when the limit is too small |
| MemoryAllocator.Allocator.FindFit | lab7/mm.c:237-253 | terminates with the block FirstFit names |
| HeapModel.FirstFitExact | lab7/mm.c:237-253 | the earliest block of the list that fits, NULL exactly if none does |
| HeapExact.ExtendReaches | lab7/mm.c:176-206 | the grown heap ends with a free block reaching brk: the old last one, or a new one at the end of the list |
| MemoryAllocator.Allocator.Place | lab7/mm.c:255-278 | tags and links in memory again represent the heap after placing at the tail of the block, or whole |
| HeapModel.PlaceAllocates | lab7/mm.c:255-278 | exactly one new live block of at least the size asked, all others as before |
| MemoryAllocator.Allocator.Malloc | lab7/mm.c:284-314 | memory represents the model's heap after malloc; no live payload byte changes |
| HeapModel.MallocWF | lab7/mm.c:284-314 | either nothing changes and NULL, or one new live block with room for the request and every old one kept |
| HeapExact.MallocExact | lab7/mm.c:255-314 | the block comes from the earliest of the list that fits, or from a heap grown by max(size, 4096) if none does; it ends where that block ends and has the rounded size or less than 16 more; the rest stays free in its place on the list |
| HeapTheorems.MallocFailsExactly | lab7/mm.c:284-314 | NULL if and only if size is 0, or no free block fits the rounded size (448 and 112 count as 512 and 128) and growing by max(that, 4096) would pass the limit |
| MemoryAllocator.Allocator.Coalesce | lab7/mm.c:316-351 | all four merges leave memory representing the freed heap, and return the merged block |
| MemoryAllocator.Allocator.Free | lab7/mm.c:356-364 | the same for mm_free; every other live payload keeps its bytes |
| HeapModel.FreeWF | lab7/mm.c:316-364 | freeing keeps tiling, no two adjacent free blocks and the exact free list |
| HeapModel.FreeChanges | lab7/mm.c:316-364 | the merged block has the sum of the sizes; all other blocks are as before |
| HeapExact.FreeOrder | lab7/mm.c:316-364 | the list keeps its order; the freed block takes its successor's place, or the last, unless its predecessor swallows it and keeps its own |
| MemoryAllocator.Allocator.Realloc | lab7/mm.c:369-443 | memory represents the model's heap after realloc, which HeapExact.ReallocExact and ReallocEdges pin down branch by branch; other payloads keep their bytes, and the result begins with the old contents up to the smaller of old capacity and new size |
| HeapExact.ReallocExact | lab7/mm.c:378-441 | with n the size rounded up, the block stays if and only if n fits it and its free successor; then it has n bytes or less than 16 more, the rest of that room is one free block behind it, and all other blocks and brk are as before |
| HeapExact.ReallocEdges | lab7/mm.c:371-382 | size 0 frees and returns the old pointer; NULL is mm_malloc of the rounded size |
| HeapModel.ResizeWF | lab7/mm.c:385-428 | shrinking and growing into part of the next block keep the heap well formed |
| HeapModel.ResizeChanges | lab7/mm.c:385-428 | only the block and the free block behind it change; their sizes add up |
| HeapModel.SwallowWF | lab7/mm.c:429-435 | taking the whole next block keeps the heap well formed |
| HeapTheorems.MoveWF | lab7/mm.c:438-441 | the move gives a new live block of enough capacity and the old one is no longer live, or faults with nothing changed |
| HeapTheorems.ReallocWF | lab7/mm.c:369-443 | through every branch the heap stays well formed and other blocks stay; unless the call faults or is an mm_malloc without room, it returns, and a positive size gets a live block with that capacity, the old block being gone if it moved |
| HeapTheorems.ReallocFaultsExactly | lab7/mm.c:371-442 | a null pointer is followed if and only if NULL is resized to 0, or a live block needs more than its room, no free block fits the rounded size and the heap cannot grow by enough |
| HeapTheorems.NullToNothingFaults | lab7/mm.c:371-375 | the first faulting input: NULL and size 0 |
| HeapTheorems.FullHeapFaults | lab7/mm.c:438-441 | the second, reached from mm_init: one block fills the smallest heap and more is asked for it |
| MemoryAllocator.Allocator.Store | lab7/mdriver.c:360-386 | a client's write inside its own payload keeps the heap valid and other payloads unchanged |
| MemoryAllocator.Allocator.constructor | lab7/memlib.c:25-35 | an empty heap area of the given size |
| HeapTheorems.AfterWF | lab7/mm.c:284-443 | one malloc, free or realloc keeps the heap well formed and every other live block in place |
| HeapTheorems.InitialWF | lab7/mm.c:211-235 | the heap that mm_init leaves is well formed |
| HeapTheorems.EveryRunIsSafe | lab7/mm.c:86-443 | over every run, live payloads are 8-aligned, inside the heap and pairwise disjoint |
| HeapRuns.Perform | lab7/mm.c:86-443 | a run in place performs its calls exactly as the model does, and stops early exactly in front of a call that follows a null pointer; a block that no call names keeps its place and every byte |
| HeapRuns.PerformFromStart | lab7/mm.c:211-443 | from an empty heap area through mm_init: the heap left is the one those calls lead to in the model, with the same reason for stopping, and live payloads are aligned, inside and apart |
| HeapRuns.PerformCall | lab7/mm.c:284-443 | one call in place is one step of the model, with the same result |
| HeapTheorems.WalkIsExact | lab7/mm.c:52-65 | walking the tags in memory visits exactly the blocks, in order, and comes to its end exactly at brk, behind the epilogue header |
| HeapExact.WordBytes | lab7/mm.c:40-41 | words are little-endian |
| HeapExact.TagWords | lab7/mm.c:36-49 | header and footer of every block hold its size, plus 1 when allocated |
| HeapExact.LinkWords | lab7/mm.c:57-66 | a free payload starts with the offsets of the blocks before and after it on the list, or 0 |
| HeapExact.EndWords | lab7/mm.c:211-235 | prologue and epilogue are allocated blocks of 8 bytes and of none |
| HeapTheorems.WalkTelescopes | lab7/mm.c:52-65 | the sizes read on the walk add up to the distance to brk |
| HeapTheorems.Conservation | lab7/memlib.c:90-93 | allocated plus free bytes, as the tags tell, are the heap size less 16 |
| HeapTheorems.FreeUndoesPlace | lab7/mm.c:255-364 | freeing a block just placed restores the tiling, and the list too when the block was split off |
| HeapTheorems.AllFreedIsOneBlock | lab7/mm.c:316-364 | with nothing live the heap is one free block of the whole size |
| HeapMemory.RemovedLinks | lab7/mm.c:150-174 | the links of the neighbours written by a removal make the shorter list exact |
| HeapMemory.ReplacedLinks | lab7/mm.c:123-148 | the links written by a replacement make the new list exact |
| HeapMemory.InsertedLinks | lab7/mm.c:86-103 | the links written by an insertion make the longer list exact |
| HeapMemory.PlaceSplitMemory | lab7/mm.c:259-270 | the tag writes of a split turn a representation of the old heap into one of the new |
| HeapMemory.FreeBothMemory | lab7/mm.c:341-350 | the same for the merge with both neighbours |
| HeapMemory.GrowSplitMemory | lab7/mm.c:419-428 | the same for growing into part of the next block |
| Y86Sim.GetLongVal | lab4/y64sim.c:50-61 | the little-endian word at an address, failing exactly outside memory |
| Y86Sim.SetLongVal | lab4/y64sim.c:71-81 | stores the word's bytes and nothing else, failing exactly outside memory with memory unchanged |
| Words.LongOfBytes | lab4/y64sim.c:50-81 | eight bytes read as a word and written again are the same bytes |
| Words.BytesOfLong | lab4/y64sim.c:50-81 | a word written as bytes and read again is the same word |
| Y86Sim.Machine.constructor | lab4/y64sim.c:202-210 | a zeroed machine whose memory is rounded up to blocks of 32 |
| Y86Sim.Machine.LoadBinfile | lab4/y64sim.c:220-235 | accepts exactly the images shorter than memory, and copies them to address 0 |
| Y86Sim.Machine.GetRegVal | lab4/y64sim.c:147-154 | the register, or 0 for ids that name none |
| Y86Sim.Machine.SetRegVal | lab4/y64sim.c:156-160 | changes that register alone in the byte array |
| Y86Sim.Machine.NextI | lab4/y64sim.c:379-559 | one instruction in place is one step on values, status included; Y86Arith and Y86Meaning say what that step does, kind by kind |
| Y86Sim.Machine.Run | lab4/y64sim.c:605-609 | the step loop is the run on values, stopping at the first status other than AOK |
| Y86Isa.DecodeEncode | lab5/y64asm.c:590-722 | fetching encoded bytes gives back code, function, registers and immediate, and the address right after |
| Y86Isa.StepRefinesExec | lab4/y64sim.c:379-559 | a step on a memory that holds an encoded instruction does what that instruction means |
| Y86Arith.AluResults | lab4/y64sim.c:247-277 | sum and difference modulo 2^64; every bit of and and of exclusive or |
| Y86Arith.SubqConditions | lab4/y64sim.c:290-366 | after subq, for all words: less compares the low halves and errs only for INT_MIN against 0; e holds exactly for equal words, ne for different ones, le is less or e, ge not less, g neither less nor e |
| Y86Arith.AddqFlags | lab4/y64sim.c:290-366 | after addq: overflow is that of the low halves except for twice INT_MIN, zero that of the whole sum, and each condition by the sign of the exact sum of low halves |
| Y86Arith.LogicConditions | lab4/y64sim.c:290-366 | after andq and xorq: each condition compares the result with 0, its sign being that of its low half |
| Y86Arith.TestConditions | lab4/y64sim.c:247-366 | andq of a word with itself keeps it and tests it against 0, for every condition |
| Y86Arith.LessOnSmallWords | lab4/y64sim.c:290-345 | on 32-bit operands less is signed comparison if and only if they are not INT_MIN and 0 |
| Y86Arith.LessFailsOnWideWords | lab4/y64sim.c:290-345 | an example beyond 32 bits where it is not |
| Y86Meaning.StatusExactly | lab4/y64sim.c:379-559 | from the bytes at the pc alone: which steps halt, which are invalid instructions, which miss a byte, with the state unchanged |
| Y86Asm.Assembler.FindSym | lab5/y64asm.c:112-124 | the address in the newest entry of that name, if there is one |
| Y86Asm.Assembler.AddSymbol | lab5/y64asm.c:135-150 | refuses a name already there, else adds it with the current address |
| Y86Asm.Assembler.TakeOperand | lab5/y64asm.c:164-174 | a name leaves one relocation entry for the current line and the value 0 |
| Y86Asm.Assembler.AddressMemory | lab5/y64asm.c:528-535 | stores exactly the low bytes of the value |
| Y86Asm.Assembler.EncodeCode | lab5/y64asm.c:590-722 | the codes before relocation are the encoding with names as 0, which Y86Meaning.EncodesTable ties to the instruction table byte by byte; a name leaves one entry |
| Y86Meaning.EncodesTable | lab5/y64asm.c:54-89 | code byte, register byte with the first operand high, and immediate of every instruction |
| Y86Asm.Assembler.EncodeData | lab5/y64asm.c:723-741 | the same for data of 1, 2, 4 or 8 bytes |
| Y86Asm.Assembler.RoundUp | lab5/y64asm.c:753-763 | for a counter that is not negative and a positive step without overflow, the next multiple of the step; otherwise what the C expression gives |
| Y86Asm.AlignUpRounds | lab5/y64asm.c:760-761 | alignment gives a multiple at or after the counter; it is the next one if and only if counter plus step is positive, or the counter is 1 more than a multiple |
| Y86Asm.Assembler.ParseStmt | lab5/y64asm.c:584-765 | address, codes, counter and relocation entry of one statement; fails only for alignment 0 |
| Y86Asm.Assembler.ParseLine | lab5/y64asm.c:547-772 | one line in place is one step of the assembler on values |
| Y86Asm.Assembler.Assemble | lab5/y64asm.c:783-822 | the loop over lines, failing with the first bad line |
| Y86Asm.Assembler.Relocate | lab5/y64asm.c:831-871 | patches in place what the relocation function patches, failing exactly when it does |
| Y86Asm.Assembler.Binfile | lab5/y64asm.c:882-904 | the file that seeking and writing line by line produces |
| Y86Correct.AddLabelsExact | lab5/y64asm.c:570-581 | labels are accepted if and only if distinct and new; then the table knows them and nothing else new |
| Y86Correct.ParseExact | lab5/y64asm.c:547-822 | parsing succeeds if and only if all labels differ and no alignment is 0; then every line, symbol and relocation entry is exact |
| Y86Correct.RelocateExact | lab5/y64asm.c:831-871 | succeeds if and only if every entry's name is defined; patches exactly the lines that refer |
| Y86Correct.PatchedBytes | lab5/y64asm.c:840-868 | patching turns the codes with 0 into the codes with the label's address, low bytes only for narrow data |
| Y86Correct.RelocatesExactly | lab5/y64asm.c:831-871 | for a parsed program, relocation succeeds if and only if every name used is some label |
| Y86Correct.FinalLines | lab5/y64asm.c:831-871 | after relocation each line holds its bytes with names as their labels' addresses |
| Y86Correct.WriteSucceeds | lab5/y64asm.c:882-904 | writing succeeds if and only if no line's address is negative |
| Y86Correct.AcceptedExactly | lab5/y64asm.c:547-904 | an image results if and only if labels differ, alignments are nonzero, names are defined and addresses are not negative |
| Y86Correct.ImageHoldsLines | lab5/y64asm.c:882-904 | with disjoint lines the file holds every line's bytes at its address |
| Y86Meaning.CodeInImage | lab5/y64asm.c:590-904 | the file holds the table's bytes of every instruction at its line's address, a name as its label's address |
| Y86Meaning.DataInImage | lab5/y64asm.c:723-904 | read back from the file, data is the value written or the label's address, modulo its width |
| Y86Meaning.LittleEndian | lab5/y64asm.c:528-535 | byte i of a word is its i-th base-256 digit, modulo 2^64 |
| Y86Meaning.LinesFollow | lab5/y64asm.c:584-765 | lines start at 0 and follow each other by the length of their bytes; .pos says where, .align goes on to the next multiple |
| Y86Correct.ImageExtent | lab5/y64asm.c:882-904 | the file fits a limit if and only if every line with bytes ends within it |
| Y86Correct.ImageGap | lab5/y64asm.c:882-904 | file bytes that no line covers are zero |
| Y86Lines.LabelOfLine | lab5/y64asm.c:570-581 | a label stands for the counter at the start of its own line |
| Y86Lines.LabelNamesNext | lab5/y64asm.c:570-596 | a label stands for the address of the next instruction in the text, with no statement between |
| Y86Lines.LabelBeforeDirective | lab5/y64asm.c:742-763 | with .pos or .align between, it does so if and only if the directive leaves the counter where it is |
| Y86Lines.AlignedStays | lab5/y64asm.c:760-761 | which for .align, a nonnegative counter and a positive step means that the counter is aligned already |
| Y86Lines.NextFollows | lab5/y64asm.c:590-596 | the next instruction of the text lies right behind the one before it |
| Y86Lines.JumpLandsOnLabel | lab5/y64asm.c:831-871 | a jump to a label taken in the text goes on with the instruction the label stands in front of, on its line or below, wherever it is defined |
| Y86Lines.LineStepLands | lab4/y64sim.c:379-559 | one step by lines (taken jump, call, return, or on to the next line) is one step by addresses, landing on the address of the line it names |
| Y86Lines.LineRunsAgree | lab4/y64sim.c:605-609 | so is any number of steps; the pc always is the address of the current line |
| Y86Lines.AssembledRunsByLines | lab5/y64asm.c:547-904 | assembled, loaded and run, an accepted program does what its lines and labels say, with no address looked at, for any number of steps |
| Y86Correct.StepsAgree | lab4/y64sim.c:379-559 | one step of the simulator on intact code is one step of the text |
| Y86Meaning.AluMeans | lab4/y64sim.c:484-496 | OPq ra, rb: rb becomes the result of op on ra and rb, the flags follow, and no other register or byte changes |
| Y86Meaning.MoveMeans | lab4/y64sim.c:450-457 | rb takes the value of ra if the condition holds; nothing else changes |
| Y86Meaning.ImmediateMeans | lab4/y64sim.c:458-461 | rb becomes the immediate, or the label's address |
| Y86Meaning.StoreMeans | lab4/y64sim.c:462-472 | the word of ra lies at rb plus displacement and all other bytes stay; ADR exactly outside memory, with nothing changed |
| Y86Meaning.LoadMeans | lab4/y64sim.c:473-483 | ra becomes the word there; ADR exactly outside memory |
| Y86Meaning.JumpMeans | lab4/y64sim.c:497-505 | on to the target, the immediate or the label's address, if the condition holds; else on to the next instruction |
| Y86Meaning.CallMeans | lab4/y64sim.c:506-517 | the address behind the call is stored below the old stack top, and control goes to the target |
| Y86Meaning.RetMeans | lab4/y64sim.c:518-528 | the word on the stack top is where control goes, and the stack pointer moves up |
| Y86Meaning.PushMeans | lab4/y64sim.c:529-540 | the old value of ra is stored below the old stack top, %rsp included; the pointer has moved even when the store fails |
| Y86Meaning.PopMeans | lab4/y64sim.c:541-553 | ra becomes the word on the stack top and %rsp moves up, unless ra is %rsp |
| Y86Meaning.HaltAndNopMean | lab4/y64sim.c:442-449 | halt stops with nothing changed, nop goes on |
| Y86Meaning.LineStepIsStep | lab4/y64sim.c:379-559 | so do steps by lines: registers, flags, memory and status are those of a step by addresses |
| Y86Correct.StepKeepsCode | lab4/y64sim.c:379-559 | a step that does not store over code leaves every instruction's bytes as they were |
| Y86Correct.RunsAgree | lab4/y64sim.c:605-609 | for any number of steps the simulator and the text agree in registers, flags, memory, pc and status |
| Y86Correct.AssembledRunsLikeSource | lab5/y64asm.c:547-904 | assembled, loaded and run, an accepted program does what its text does, for any number of steps |
| Y86Correct.LoopRunsForever | lab5/y64asm.c:547-904 | a jump to its own label assembles, loads, and stays where it is for any number of steps |
| Y86Correct.AssembleFile | lab5/y64asm.c:783-904 | the in-place assembler produces exactly that image or fails exactly when there is none |
| Y86Correct.AssembleAndRun | lab4/y64sim.c:567-620 | the in-place assembler and simulator together report what the text does |
| LruCache.CacheSim.constructor | lab8/csim.c:180-182 | a cold cache of zeros holds an empty recency list in each set |
| LruCache.CacheSim.Search | lab8/csim.c:45-71 | finds the hit, or the first empty line, or a line of greatest age |
| LruCache.CacheSim.AgeLines | lab8/csim.c:50-92 | makes exactly the lines before the stopping point one older |
| LruCache.CacheSim.AccessSet | lab8/csim.c:45-97 | hit, fill and eviction each leave the set holding the recency list after the access |
| LruCache.CacheSim.AddressCache | lab8/csim.c:26-111 | tags, ages and the three counters represent the recency lists after the access, in the set that LruCache.AddressParts gives; other sets are untouched |
| LruCache.CacheSim.Simulate | lab8/csim.c:183-194 | the same over a whole trace |
| LruCache.HitModels | lab8/csim.c:47-58 | on a hit, ages again order the lines as the list with that tag in front |
| LruCache.FillModels | lab8/csim.c:73-84 | the same when an empty line is filled |
| LruCache.EvictModels | lab8/csim.c:86-97 | the same when the oldest line, which holds the list's last tag, is replaced |
| LruCache.LineIsBlock | lab8/csim.c:26-44 | set and tag of two addresses agree if and only if their blocks do |
| LruCache.AddressParts | lab8/csim.c:36-37 | an address is tag, set index below S and block offset, put together in this order |
| LruCache.AddressPartsOnly | lab8/csim.c:36-37 | and it can be taken apart so in one way only |
| LruCache.MovedModels | lab8/csim.c:47-97 | renewing a line moves its tag to the front of the list that ages represent: what hits and evictions share |
| LruSpec.TouchTakes | lab8/csim.c:45-97 | an access to the most recent e tags leaves the most recent e tags of the longer trace, and hits exactly if the tag is among them |
| LruSpec.TakeWithout | lab8/csim.c:45-97 | removing a tag and keeping the first few commute |
| LruSpec.RecentDistinct | lab8/csim.c:45-97 | the recency list holds each tag of the trace once |
| LruSpec.RecentByLastUse | lab8/csim.c:45-97 | and orders them by last use |
| LruSpec.SetHoldsRecent | lab8/csim.c:26-111 | after any trace a set holds exactly the e most recently used tags of its own accesses |
| LruSpec.MoreWaysIncludeFewer | lab8/csim.c:26-111 | inclusion: one more way keeps at least the same tags, never fewer hits, never more misses |
| LruSpec.CountersAccount | lab8/csim.c:45-103 | hits plus misses count loads, stores and modifies twice; misses less evictions are the occupied lines, at most S times E |
| Ncopy.LoadWord | lab6/ncopy.ys:25-32 | a load from the source block sees the original word although earlier words were copied |
| Ncopy.SaveWord | lab6/ncopy.ys:33-40 | a store extends the copied block by one word |
| Ncopy.CountOne | lab6/ncopy.ys:43-46 | andq, jle, iaddq add one exactly for a positive word |
| Ncopy.AddAndJump | lab6/ncopy.ys:74-80 | a jump after iaddq follows the sign of the exact sum, even when the register wraps |
| Ncopy.Iteration | lab6/ncopy.ys:24-73 | an iteration of either loop copies and counts its words and advances both pointers |
| Ncopy.RunLoop1 | lab6/ncopy.ys:24-77 | the eightfold loop leaves fewer than eight words |
| Ncopy.RunLoop2 | lab6/ncopy.ys:83-100 | the twofold loop leaves fewer than two |
| Ncopy.RunTail | lab6/ncopy.ys:101-108 | the last word, if any, completes copy and count |
| Ncopy.NcopyWorks | lab6/ncopy.ys:16-113 | from any start with length at least -2^63 + 8 the routine reaches Done with the block copied, the positive words counted and other memory unchanged |
| Ncopy.WrappedLengthFaults | lab6/ncopy.ys:22-84 | for the eight most negative lengths, if the first source word cannot be read, it stops at that load although nothing is to be copied |
| Ncopy.WrappedLengthRunsOff | lab6/ncopy.ys:83-100 | for the two most negative lengths it never reaches Done, whatever memory holds: a pointer leaves memory first |
| Ncopy.WrappedLengthCopies | lab6/ncopy.ys:83-108 | for the other six it reaches Done, having copied and counted two or three words |
| Ncopy.WrappedOutcome | lab6/ncopy.ys:16-113 | with room for three words, such a length goes unnoticed if and only if it is one of those six, the stray words were copied before and none is positive |
| Ncopy.FailsOnRealMemory | lab6/ncopy.ys:16-113 | a memory of 64 bytes on which every one of these lengths goes wrong |
| Ncopy.WorksExactly | lab6/ncopy.ys:16-113 | the routine is correct for a length if and only if the length is at least -2^63 + 8 |
| Ncopy.OneEnd | lab6/ncopy.ys:16-113 | a run has only one end |
| Ncopy.StepInPlace | lab6/ncopy.ys:16-113 | one instruction in place is one step on values |
| Ncopy.RunInPlace | lab6/ncopy.ys:16-113 | run in place, the routine terminates with what it is for |
| Words.SelfBits | lab4/y64sim.c:247-277 | and of a word with itself is that word, exclusive or is 0 |
| JobList.FirstPid | lab9/tsh.c:531-563 | the first slot with that pid, or the number of slots |
| JobList.FirstFg | lab9/tsh.c:579-581 | the first foreground slot, or the number of slots |
| JobList.MaxJid | lab9/tsh.c:514-522 | an upper bound of all jids that is one of them, or 0 |
| JobList.JobTable.constructor | lab9/tsh.c:496-511 | sixteen cleared slots |
| JobList.JobTable.Maxjid | lab9/tsh.c:514-522 | the loop computes that maximum |
| JobList.JobTable.Addjob | lab9/tsh.c:525-551 | fills the first free slot and steps nextjid past 16 to 1; refuses pids below 1 and a full table |
| JobList.JobTable.Deletejob | lab9/tsh.c:554-572 | clears the slot of that pid and sets nextjid behind the largest jid left |
| JobList.JobTable.Fgpid | lab9/tsh.c:575-583 | the pid of the first foreground slot, or 0 |
| JobList.JobTable.Getjobpid | lab9/tsh.c:586-596 | the slot of that pid, or none |
| JobList.JobTable.SigchldHandler | lab9/tsh.c:416-449 | applies every report in turn; Shell.ReportExact says what each does to every slot |
| Shell.DeletePids | lab9/tsh.c:554-572 | deleting removes exactly that pid and keeps pids distinct |
| Shell.ReportExact | lab9/tsh.c:422-446 | a stop leaves the slot of that pid with its pid and jid and state ST, an end clears it, and every other slot is as before |
| Shell.AddPids | lab9/tsh.c:525-551 | adding adds exactly that pid, if there is room |
| Shell.EvalEnters | lab9/tsh.c:215-225 | eval puts its child in a free slot as FG or BG and changes no other; only a full table loses it |
| Shell.ReapKeeps | lab9/tsh.c:422-446 | one report keeps the invariant wherever the shell is outside its blocked section |
| Shell.HandleKeeps | lab9/tsh.c:416-449 | a whole delivery keeps it and leaves the shell where it was |
| Shell.AdvanceKeeps | lab9/tsh.c:190-403 | every step of eval, do_bgfg and waitfg keeps it |
| Shell.RunKeeps | lab9/tsh.c:173-449 | every interleaving keeps it |
| Shell.EveryRunIsHonest | lab9/tsh.c:173-449 | over every interleaving: at most one foreground job, none at the prompt, entries are distinct unreaped children, and every unreaped child is in the table, lost for lack of room, or about to be added |
| Shell.SignalsReachChildren | lab9/tsh.c:456-486 | the pid that ctrl-c, ctrl-z or SIGCONT is sent to is 0 or a child not yet reaped |
| Shell.ReportKeepsStates | lab9/tsh.c:422-446 | a report keeps the table truthful about which children are stopped |
| Shell.RunKeepsStates | lab9/tsh.c:173-449 | so does every interleaving |
| Shell.EveryRunTellsStates | lab9/tsh.c:173-449 | over every interleaving an entry says ST if and only if a stop was the last thing to happen to its child and was not reported between SIGCONT and the state set after it; at the prompt all others say BG |
| Shell.LateOnlyThen | lab9/tsh.c:374-392 | a report comes to be overwritten only there: the stop of the very child that SIGCONT was sent to, by the very next step of bg or fg |
| Shell.TimelyStatesAreTrue | lab9/tsh.c:173-449 | if nothing is reported in that window, ST is said of exactly the stopped children |
| Shell.StopCanBeOverwritten | lab9/tsh.c:374-392 | a run after which a stopped job is listed as running in the background |
| Shell.WaitReturnsExactly | lab9/tsh.c:397-403 | left alone, waitfg returns if and only if its pid is not 0 and no job is in the foreground |
| Shell.ZeroNeverReturns | lab9/tsh.c:397-403 | waitfg(0) never returns, whatever signals arrive |
| Shell.FgCanWaitForZero | lab9/tsh.c:374-392 | a run in which fg comes to wait for pid 0 |
| Shell.UnblockedHangs | lab9/tsh.c:190-238 | without blocking, a run after which the shell waits for ever for a child it has reaped |
| Shell.StaleForever | lab9/tsh.c:397-403 | a foreground entry of a child no longer there, in any slot and with any pid, keeps the shell waiting over every continuation |
| Shell.BlockingIsNeeded | lab9/tsh.c:190-226 | entries are unreaped children in every reachable state if and only if SIGCHLD is blocked from fork to addjob |
| Shell.Tsh.constructor | lab9/tsh.c:93-170 | the shell starts at its prompt with an empty table |
| Shell.Tsh.Resume | lab9/tsh.c:190-403 | the code between two points where the handler may run does what the transition says |
| Shell.Tsh.Perform | lab9/tsh.c:173-449 | any possible action in place is that transition, and keeps the invariant |
| JobIds.DeleteJids | lab9/tsh.c:554-572 | the next id becomes one more than the largest in use, and no other job's id changes |
| JobIds.AddJids | lab9/tsh.c:525-551 | the new job gets the next id; ids still differ if and only if they did and that id was free, as it is until ids begin again at 1 |
| JobIds.NextKeepsJids | lab9/tsh.c:173-449 | a step of the shell makes two jobs share an id if and only if eval enters a child while the next id is in use |
| JobIds.EveryRunKeepsIds | lab9/tsh.c:173-449 | over every interleaving jobs have positive ids, all different as long as no such step was taken |
| JobIds.IdsCanRepeat | lab9/tsh.c:525-572 | a run that ends with two jobs under the id 1 |
| Transpose.OneTranspose | lab8/trans.c:194-209 | the transpose is unique: a second matrix is one too if and only if all cells agree |
| Transpose.CheckTranspose | lab8/trans.c:194-209 | answers exactly whether B is the transpose |
| Transpose.Trans | lab8/trans.c:159-171 | the plain loop leaves the transpose |
| Transpose.Tiles24By8 | lab8/trans.c:30-59 | the 24 by 8 tiling leaves it for every matrix with rows a multiple of 8 long |
| Transpose.MoveEight | lab8/trans.c:37-56 | eight values go through temporaries to their places, no other cell changes |
| Transpose.ParkRow | lab8/trans.c:67-88 | half a row goes home, half is parked to the right of it |
| Transpose.SwapRow | lab8/trans.c:90-111 | a parked row and a column of the lower half both reach their places |
| Transpose.LastQuarter | lab8/trans.c:112-124 | the last quarter of the tile |
| Transpose.StagedTile | lab8/trans.c:65-125 | the three stages together transpose one tile and touch nothing outside it |
| Transpose.StagedTiles | lab8/trans.c:60-127 | the staged scheme leaves the transpose for all sizes that are multiples of 8 |
| Transpose.Tiles18By18 | lab8/trans.c:128-143 | the 18 by 18 tiling leaves it for all sizes |
| Transpose.TransposeSubmit | lab8/trans.c:28-148 | whatever the shape and the old contents of B, B becomes the transpose |
| Rio.Descriptor.Read | lab10/csapp.c:805-819 | what is assumed of read: it carries out the next planned outcome, a nonempty piece of the input unless it has ended, or -1 with nothing taken |
| Rio.RioBuf.constructor | lab10/csapp.c:837-842 | an empty buffer in front of the descriptor |
| Rio.RioBuf.Refill | lab10/csapp.c:809-819 | retries after EINTR and loses nothing; -1 if and only if the buffer is empty and the next outcome other than EINTR is a failure |
| Rio.RioBuf.RioRead | lab10/csapp.c:805-830 | delivers the next bytes, 0 only at the end or for a request of 0, and touches nothing else; -1 if and only if the next byte meets a failing read, and then nothing changes |
| Rio.RioBuf.RioReadnb | lab10/csapp.c:849-864 | delivers exactly min(n, what is left) and touches nothing behind; -1 if and only if fetching n bytes meets a failing read, with nothing lost |
| Rio.RioBuf.RioReadlineb | lab10/csapp.c:871-893 | delivers exactly the next line, terminated, and touches nothing behind, or leaves the buffer alone at the end of the input; -1 if and only if finding the line's end meets a failing read |
| Rio.NoneFails | lab10/csapp.c:805-893 | a plan without failures fails no request |
| Rio.LineLenExact | lab10/csapp.c:876-890 | a line ends at the first newline, at maxlen - 1 bytes or at the end, whichever comes first, and conversely |
| Rio.AnswersArePrefix | lab10/csapp.c:805-893 | the answers to any requests, put together, are a prefix of the input |
| Rio.AnswersSnoc | lab10/csapp.c:805-893 | a further request is answered from what the earlier ones leave |
| Rio.RioBuf.Session | lab10/csapp.c:805-893 | over any sequence of requests and any splitting without hard errors, the answers depend on the input alone, and delivered, buffered and remaining bytes make up the input |
| Sio.Reverse | lab10/csapp.c:226-235 | the terminated string is reversed in place, the rest of the array kept |
| Sio.Ltoa | lab10/csapp.c:238-255 | the array holds the text of the number, terminated |
| Sio.PutDigits | lab10/csapp.c:238-248 | the do-while loop writes the digits, least first |
| Sio.DigitsOfAlphabet | lab10/csapp.c:246 | a digit c is character c of 0 to 9 and a to z |
| Sio.TextIsShort | lab10/csapp.c:276-282 | 64 characters and a terminator always suffice, so the caller's 128 do |
| Sio.DigitsReadBack | lab10/csapp.c:246-248 | reading the reversed digits gives the number |
| Sio.ReadsBackExactly | lab10/csapp.c:238-255 | reading the text back gives the number if and only if it is not the least long |
| Sio.NoLeadingZero | lab10/csapp.c:238-255 | the first digit is 0 if and only if the number is |

## Left out

- lab7: `mdriver`, timing and trace reading; the heap consistency printing. Concurrent callers are not supported by the package.
- lab7: requests so large that the rounded size overflows `int`.
- HeapRuns.Perform: a run ends where a null pointer is followed; what the machine does then is not modelled.
- Y86Sim.GetLongVal: does not model the overflow of `addr + 8` for addresses within 8 of 2^63.
- Y86Correct.RunsAgree: covers memories below 2^31 bytes and runs that stay on the text's own instructions and do not store over them; running data or changed code is not covered.
- lab4 and lab5: printing, listings, command lines, and the comparison of memory images.
- lab5: splitting text into tokens; a program is a sequence of lines with labels first and at most one statement. A division by zero in `.align 0` counts as rejection.
- Y86Asm.Assembler.ParseLine: a second statement on a line, which the C code would let overwrite the first, is not modelled.
- lab8 csim: trace and option parsing, the overflow of `int` ages, counters and sizes, negative addresses, E of 0; `csim1.c` repeats `csim.c`.
- lab6: the final `ret`, and the pipeline's cycle counts. Instruction addresses are numbers of instructions.
- lab9: text parsing, printing, `quit` and `jobs`, the uninitialised mask in the handler (the handler is one atomic step), and command lines in the job table. The block call and `fork` are one step, since nothing can come between them.
- Shell.WaitReturnsExactly: does not claim that children ever end.
- lab10: the proxy, sockets, threads, wrappers, `rio_readn` and `rio_writen`. The kernel's plan of outcomes is finite, so EINTR does not recur for ever; values of `n` beyond the range of `int` are not modelled.
- lab1, lab2 and lab3: single expressions and answers to exercises on binaries.
