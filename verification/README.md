# Six algorithmic cores of LuaJIT, in Dafny

The project models the parts of LuaJIT whose correctness rests on an argument that no single function shows: its
memory allocator, the DynASM x86 assembler, the register allocator for traces, the Lua pattern matcher, the bytecode
dump, and the sort and the logical immediate encoder. Each part is an imperative model of the C code, proved against
functions or invariants, with lemmas that say what those mean.

- **Memory allocator** (`lj_alloc.c`). `Heap`, `HeapSegments` and `HeapSystem` are the theory of a tiled heap with
  boundary tags, on values; `Trie*`, `TreeBins`, `SmallBins` and `BinMap` are the bins; `Alloc` is `struct
  malloc_state` with its operations; `SystemCalls` is the log of what the system was asked for; `AllocMemory` puts the
  bytes of memory beside it, and proves what a program sees.
  The class invariant holds after every operation, whatever the system answers to mmap, munmap and mremap.
- **Register allocation** (`lj_asm.c`). `RegAlloc`, `SideTrace` and `Phi` are the theory; `Assembler` is `ASMState`.
  Code is a list of abstract moves, loads, stores and operations with a meaning as a machine step. The invariant is
  that the code emitted so far, run from any machine that the bookkeeping expects, reaches the goal of the trace.
- **Pattern matching** (`lib_string.c`, `lib_aux.c`). `Pattern` and `Matching` are the language as
  the matcher reads it, and what backtracking finds; `PatternText` and `PatternMeaning` are patterns as they are
  composed and written, and what they mean; `MatchState`, `Buffer` and `StringLib` are the imperative matcher,
  `luaL_Buffer`, and `string.find`, `gmatch` and `gsub` on top of them; `GsubMeaning` says what those come to.
- **DynASM** (`dasm_x86.h`). `DynAsm` is the action list, `DynLabels` the label chains in the section buffers,
  `DynBuffers`, `DynLink` and `DynEncode` the theories of passes 1, 2 and 3, `DynBinding` the story told in the order
  of the calls; `DynMeaning` tells what action lists and code say; `DynEngine` has the three passes.
- **Bytecode dump** (`lj_bcwrite.c`, `lj_bcread.c`). `Leb`, `BcTypes`, `BcTable`, `BcProto` and `BcTree` are the format
  and its round trips; `BcSame` is what it is to be the same function, `BcExample` one dump byte by byte; `BcWrite` and
  `BcRead` are the writer and the reader.
- **Table functions and immediates**. `TableSort` and `TableMove` (`lib_table.c`), `Imm13` (`dasm_arm64.h`).

Findings about the code, each with its exact condition:

- `dasm_imm13` takes some 64 bit words for logical immediates that are none, as 0xC3C3C3C3C3C3C3C0: those whose first
  run of ones crosses the end of its element (`Imm13.Exact`). For 32 bit immediates it is right for all words.
- A negative zero that the dump writes as an integer is read back as a positive one (`BcTable.ValueBack`,
  `BcProto.KnBack`, at an input `BcTable.MinusZeroLost`); all other values survive. The writer takes for granted that
  such a constant does not occur; the parser makes none, but a dump made by hand can hold one.
- With DASM_CHECKS, a backward reference to a local label is refused not only if the label is undefined: it is refused
  too while a forward reference to the same label is pending (`DynBinding.PendingIff`, at an input
  `DynEngine.RefusedCall`).

## Model

| member | source | states |
|---|---|---|
| `AllocMemory.LjAlloc.AllocF` | lib/luajit/src/lj_alloc.c:1473-1483 | a new block is none of the old ones and all others keep their place, size and bytes; a resized one keeps its first min(old, new) bytes; freeing removes that block only; null leaves every block as it was, and comes only for requests beyond MAX_REQUEST, or when no free chunk fits and the system has refused each mapping that the code asks for; what the allocator holds changes by what the system gave and took |
| `AllocMemory.LjAlloc.Realloc` | lib/luajit/src/lj_alloc.c:1423-1471 | on success the block has the new size and the first min(old, new) bytes of the old one, and no other block changes; on failure no block changes, no free chunk fits, and the system has refused to remap a direct block and to map memory; a heap block that can stay in place (large enough, or extended into the top) does |
| `AllocMemory.LjAlloc.Malloc` | lib/luajit/src/lj_alloc.c:1269-1350 | if a free chunk fits, it is served from the heap without asking the system; else the system is asked as in `AllocSys`, and null with nothing changed comes only if it refuses; a new block has the given size and every other block keeps its bytes |
| `AllocMemory.LjAlloc.Free` | lib/luajit/src/lj_alloc.c:1352-1421 | exactly the given block is gone; all others keep place, size and bytes, and the heap stays well formed; a direct block is unmapped with the size of its mapping |
| `AllocMemory.BlocksSeparate` | lib/luajit/src/lj_alloc.c:406-437 | in every reachable heap blocks are aligned, hold at least what was asked for, and no two of them share a byte, direct ones included |
| `AllocMemory.StoreKeeps` | lib/luajit/src/lj_alloc.c:439-477 | a word that the allocator stores to holds no byte of a block that is live before and after the step; the logged stores include every changed head and footer |
| `Heap.SegmentsTiled` | lib/luajit/src/lj_alloc.c:456-469 | every address of a segment up to its end lies in exactly one chunk of the segment |
| `Alloc.MState.Malloc` | lib/luajit/src/lj_alloc.c:1269-1350 | for a small request a chunk of just the size, or the next, comes first, for a large one a best fit better than the victim; then the victim, a best fitting binned chunk, the top; a small remainder becomes the victim, a large one is binned; only if nothing fits is the system asked; the heap, the bins and the segments stay well formed, and hold what the system has given |
| `Alloc.MState.FreeBlock` | lib/luajit/src/lj_alloc.c:1352-1421 | tiling, PINUSE bits, footers, no adjacent free chunks, exactly one bin per free chunk: all kept; only this block leaves; a direct one is unmapped; if it goes to the top and that gets too large, trimming is tried; every so many large chunks, unused segments are given back |
| `Alloc.MState.FreeChunkAt` | lib/luajit/src/lj_alloc.c:1359-1418 | the concrete bin, victim, top, head and footer updates of every case amount to the merge of the chunk with its free neighbours |
| `Heap.Neighbours` | lib/luajit/src/lj_alloc.c:1357-1382 | the footer and the size of a block being freed lead to chunk boundaries, and what is found free there is maximal: the chunks further out are in use |
| `Heap.FreedBecomes` | lib/luajit/src/lj_alloc.c:1359-1418 | a freed chunk, with its free neighbours, becomes the top if it borders on it, else the victim if it borders on that, else a binned chunk; its neighbours are binned no more |
| `Alloc.MState.TmallocLarge` | lib/luajit/src/lj_alloc.c:1130-1191 | the chunk used is a smallest one of at least nb bytes in the trees, and smaller than a victim that fits; null exactly leaves the case that no tree chunk fits or the victim fits at least as well |
| `Alloc.MState.TmallocSmall` | lib/luajit/src/lj_alloc.c:1194-1222 | the chunk used is a smallest one of all tree chunks |
| `Alloc.MState.MallocSmall` | lib/luajit/src/lj_alloc.c:1274-1314 | a small request gets a smallest fitting chunk of all small bins and trees; it gets none only if none fits or the victim does |
| `Alloc.MState.PrependAlloc` | lib/luajit/src/lj_alloc.c:902-932 | a mapping below a segment joins it, the request is served from it, and the remainder merges with the first chunk (top, victim, free or in use); all invariants hold |
| `Alloc.MState.AllocSys` | lib/luajit/src/lj_alloc.c:983-1040 | large requests ask for a mapping of their own first, in whole pages, then for a segment with room, in whole granularity units and no unit more, unless the sizes wrap around; null comes just if all of that is refused; memory mapped is held, as a direct chunk or in the segments |
| `Alloc.MState.UseMapping` | lib/luajit/src/lj_alloc.c:1007-1036 | a mapping that adjoins a segment makes that larger, and only another one starts a new segment; either way all of it is held, and the request is served |
| `Alloc.MState.AllocTrim` | lib/luajit/src/lj_alloc.c:1087-1125 | every block and all invariants are kept; true is returned exactly if the total size of the segments got smaller; the top ends within a granularity unit of its least size unless its segment holds a record or the system refused; no empty segment is left that the system would have taken |
| `Alloc.MState.ReleaseUnused` | lib/luajit/src/lj_alloc.c:1045-1085 | the segments that go hold no block, the first one and all others stay, the number returned is the total size of those that went; each empty segment is offered to the system, and stays only if that refuses |
| `Alloc.MState.ResizeInPlace` | lib/luajit/src/lj_alloc.c:1438-1457 | in place exactly if the chunk is large enough, or borders on the top and both together are; the rest is freed |
| `Alloc.MState.DirectResize` | lib/luajit/src/lj_alloc.c:845-870 | requests below the size of large chunks fail; a block that fits well stays where it is; else the system is asked for a mapping of just the size needed, and the block moves as a whole, or it refused and nothing changes |
| `TreeBins.TreeBins.InsertLargeChunk` | lib/luajit/src/lj_alloc.c:728-764 | the tries and the treemap stay well formed (size bits by depth, rings of equal sizes, parents, marked exactly if not empty), and the binned sizes gain exactly this chunk |
| `TreeBins.TreeBins.UnlinkLargeChunk` | lib/luajit/src/lj_alloc.c:766-811 | the same, and exactly this chunk leaves |
| `Trie.Descend` | lib/luajit/src/lj_alloc.c:614-639 | a chunk below a node lies below the child that its next unread size bit picks, and depth is bounded by the bits of the bin, so descents end |
| `SmallBins.SmallBins.UnlinkFirstSmallChunk` | lib/luajit/src/lj_alloc.c:703-711 | the ring and the map stay well formed and one chunk of exactly the size of the bin leaves |
| `BinMap.NextBin` | lib/luajit/src/lj_alloc.c:1163-1165 | the masked word is zero exactly when no higher bin is marked, and otherwise its lowest set bit is the least marked bin above idx |
| `BinMap.NearSmallBin` | lib/luajit/src/lj_alloc.c:1279-1284 | idx plus the complemented low bit is the least marked bin from idx on, if one of the two next bins is marked |
| `BinMap.FarSmallBin` | lib/luajit/src/lj_alloc.c:1291-1298 | the shifted and masked map is zero exactly if no bin from idx on is marked, and otherwise its lowest bit is the least of them |
| `Assembler.AssembleSideTrace` | lib/luajit/src/lj_asm.c:2415-2447 | if a side trace is assembled, then for every machine that the parent trace leaves, running the code leaves in each wanted register the meaning of its reference; with more registers in each file than references and parent registers together, it fails only if it takes more than 256 spill slots |
| `Assembler.ASMState.AsmTrace` | lib/luajit/src/lj_asm.c:2415-2468 | the same for the state as it is when the tail has been emitted, and all registers are free at the end, so that the error "should never happen" does not |
| `Assembler.ASMState.HeadSide` | lib/luajit/src/lj_asm.c:1830-1979 | the head takes all values from parent registers and spill slots to where the body expects them, for any permutation with any cycles; it succeeds if each register file has more registers than references to inherit and parent registers together |
| `Assembler.ASMState.Shuffle` | lib/luajit/src/lj_asm.c:1945-1979 | the shuffle ends; it fails only if in one register file every register allowed as a temporary is a pending source; else all targets get their values |
| `Assembler.ASMState.AssembleBody` | lib/luajit/src/lj_asm.c:2415-2429 | assembling instructions backwards keeps registers, costs and spill slots consistent and the code meaning what it should; it fails only when spill slots run out |
| `Assembler.ASMState.Allocref` | lib/luajit/src/lj_asm.c:616-657 | if an allowed register is free, the hinted one of those, or else any, is taken, and no code is emitted; a hinted one that holds a constant may be taken over; only if none is free is the owner of one evicted; nothing else changes its register; it fails only when spill slots run out |
| `Assembler.ASMState.SnapAlloc1` | lib/luajit/src/lj_asm.c:892-947 | a reference without a place that escapes to a snapshot gets a register exactly if one is free or holds a constant that can be rematerialised, and else a spill slot; the code still means what it should |
| `Assembler.ASMState.Evict` | lib/luajit/src/lj_asm.c:451-471 | one register of the set becomes free and its value is restored behind this point, by a reload or as a constant |
| `Assembler.ASMState.Spill` | lib/luajit/src/lj_asm.c:379-401 | slots never overlap, 64 bit ones are even, and all stay below 256, or the allocation fails |
| `Assembler.ASMState.Rename` | lib/luajit/src/lj_asm.c:680-699 | the reference moves to the free register and the code before and after agrees on it |
| `Assembler.ASMState.PhiShuffle` | lib/luajit/src/lj_asm.c:1375-1449 | it ends, whatever cycles there are; then every left operand that has a register has its own PHI register, so has each one that had a spill slot before, and all other registers modified in the loop are free; the code still means what it should; it fails only when spill slots run out |
| `Assembler.ASMState.BreakPhi` | lib/luajit/src/lj_asm.c:1341-1355 | no operand in place is displaced, and a broken cycle makes one mismatched register free |
| `SideTrace.OnlyCycles` | lib/luajit/src/lj_asm.c:1945-1979 | when no source register is free, the pending moves form cycles only: every register in use is a source of another move |
| `Matching.MatchIsFirstDecomposition` | lib/luajit/src/lib_string.c:338-421 | unless it gives up as too complex, `match` returns the end and captures of the first decomposition in greedy or lazy priority order, or fails exactly if there is none |
| `Matching.SimpleIsFirst` | lib/luajit/src/lib_string.c:338-421 | for a pattern with fewer captures and quantified classes than LJ_MAX_XLEVEL, as is every pattern of less than 200 characters, that is so for every subject |
| `Matching.MatchIsFirst` | lib/luajit/src/lib_string.c:272-421 | the same with the limit on pending calls built into the decompositions |
| `PatternMeaning.MatchMeans` | lib/luajit/src/lib_string.c:338-421 | for every pattern composed of the pieces of the manual and written down: `match` goes the preferred one of all ways through the pieces, for every subject, or raises the error that they lead to |
| `PatternMeaning.TextMeans` | lib/luajit/src/lib_string.c:338-421 | reading the text of a pattern, the matcher goes just the ways through its pieces: repetitions that `?`, `*`, `+` and `-` allow, captures, back references, balances and frontiers; malformed endings raise their errors |
| `PatternMeaning.TextPrefers` | lib/luajit/src/lib_string.c:272-299 | `?`, `*` and `+` prefer more repetitions, `-` prefers fewer |
| `PatternMeaning.QuantifierLaws` | lib/luajit/src/lib_string.c:389-416 | of the characters in a class, `*` and `+` take the longest run, `-` takes none and `?` at most one; only `+` fails if there are none |
| `PatternText.ClassIs` | lib/luajit/src/lib_string.c:196-249 | a class ends where its text ends and has the characters it stands for: any, one, those of a letter or of its complement, those of the elements of a set or all others |
| `Matcher.MatchState.Match` | lib/luajit/src/lib_string.c:338-421 | the imperative matcher has that result; on failure level, captures and depth are as on entry |
| `Pattern.BalanceEndsFirst` | lib/luajit/src/lib_string.c:251-270 | `%b` ends where openings and closings are even for the first time, or fails if they never are |
| `StringLib.FindPattern` | lib/luajit/src/lib_string.c:476-499 | the leftmost match from the start position, tried at the start only if anchored; not found exactly if there is none |
| `GsubMeaning.StartIs` | lib/luajit/src/lib_string.c:454-466 | start positions count from 1, or from -1 backwards at the end, and those beyond an end are the end |
| `StringLib.GmatchNext` | lib/luajit/src/lib_string.c:513-535 | the first match from a position on, and where to go on, further for empty matches; or there is none; or an error where the search stops |
| `StringLib.GmatchAll` | lib/luajit/src/lib_string.c:513-535 | the list has all matches: each is the first one from where the one before it ends, or one further if that was empty; no match is left if the loop comes to its end, and else the matcher raises an error where it stopped |
| `StringLib.MatchesAdvance` | lib/luajit/src/lib_string.c:513-535 | such matches strictly advance without overlap, and there are at most one more than characters |
| `StringLib.Gsub` | lib/luajit/src/lib_string.c:600-639 | the loop over `luaL_Buffer` computes the recursive meaning of `gsub`, for templates, tables and functions |
| `StringLib.GsubWhole` | lib/luajit/src/lib_string.c:600-639 | for every pattern and every limit: "%0" gives the subject back, with no more substitutions than the limit nor than one more than its length |
| `StringLib.GsubIdentity` | lib/luajit/src/lib_string.c:568-639 | so does every replacement that maps each match to itself |
| `StringLib.GsubCount` | lib/luajit/src/lib_string.c:616-638 | the number of substitutions is bounded by the limit and by the positions left, and is at most one if anchored |
| `GsubMeaning.GsubIsGmatch` | lib/luajit/src/lib_string.c:616-639 | `gsub` substitutes just the matches that `gmatch` finds, up to the limit, copies what is between them, and counts them |
| `GsubMeaning.GsubStops` | lib/luajit/src/lib_string.c:616-639 | an error of the matcher behind those matches is raised, unless a replacement raises one first or the limit is reached |
| `GsubMeaning.GsubAnchored` | lib/luajit/src/lib_string.c:608-639 | an anchored pattern is tried at the start only |
| `GsubMeaning.TemplateMeans` | lib/luajit/src/lib_string.c:547-566 | a template contributes part by part: characters as they are, also behind a %, the whole match for %0, and for %1 to %9 the text of that capture, its position as a numeral, or an error |
| `GsubMeaning.FunctionMeans` | lib/luajit/src/lib_string.c:568-598 | a function gets all captures in order, or the whole match if there are none; nil and false keep the match, other values than strings are errors; so is an unfinished capture |
| `GsubMeaning.TableMeans` | lib/luajit/src/lib_string.c:568-598 | a table is indexed with the first capture |
| `Buffers.Buffer.AddLString` | lib/luajit/src/lib_aux.c:219-230 | the pieces on the stack followed by the buffer spell the old text and the new one; few pieces are pending; what lies below is untouched |
| `Buffers.Buffer.AddValue` | lib/luajit/src/lib_aux.c:244-259 | the same for the value on the top of the stack, which goes |
| `Buffers.Buffer.AdjustStack` | lib/luajit/src/lib_aux.c:194-210 | joining pieces keeps the text and leaves less than ten |
| `Buffers.Buffer.PushResult` | lib/luajit/src/lib_aux.c:237-242 | the whole text is one string on the stack |
| `DynEngine.DasmState.Put` | lib/luajit/dynasm/dasm_x86.h:167-272 | pass 1 stores one entry for each action, keeps label tables, chains and estimates consistent, and succeeds exactly if each immediate operand is in the range of its kind, no label is out of range, no backward reference goes to an unsettled local label, and the section exists |
| `DynMeaning.SpellBack` | lib/luajit/dynasm/dasm_x86.lua:197-475 | the engine finds in an action list the items that were written, escaped code included, and each starts where the one before it ends |
| `DynEngine.PutReads` | lib/luajit/dynasm/dasm_x86.h:186-266 | a call stores an entry for each item up to the one that ends it, and the arguments go to the items that take one, in order |
| `DynEncode.RangeIff` | lib/luajit/dynasm/dasm_x86.h:199-202 | an argument is accepted exactly if the bytes of its kind can say it |
| `DynAsm.SizeAttained` | lib/luajit/dynasm/dasm_x86.h:188-264 | the size estimated for an action is the least that is always enough |
| `DynEngine.RefusedCall` | lib/luajit/dynasm/dasm_x86.h:221-228 | a call that defines a local label, branches forward to the next one of the same number and back to the first is refused |
| `DynEngine.BackwardRefused` | lib/luajit/dynasm/dasm_x86.h:225-225 | the entry refused is the backward branch, though its label is defined |
| `DynEngine.DasmState.Link` | lib/luajit/dynasm/dasm_x86.h:274-359 | pass 2 visits the same entries and makes all offsets final; it fails exactly if an earlier call has failed, and else reports an undefined label exactly if a reference to a PC label is pending |
| `DynEngine.DasmState.Encode` | lib/luajit/dynasm/dasm_x86.h:374-480 | pass 3 never ends in a phase error: it emits exactly `codesize` bytes, each entry at its final offset; every branch lands on the definition that its reference is bound to; what the code of each item says is as in `CodeSays`; and the table of globals tells where the last definition of each in the code is |
| `DynMeaning.CodeSays` | lib/luajit/dynasm/dasm_x86.h:386-466 | read from the action list: code bytes are themselves; immediates, addresses, relative addresses and externals spell their number; a shrunk e9 is eb, and a shrunk 0f 8x a 7x with the same condition, in two bytes from where the opcode began; alignment is reached with no-ops; labels defined elsewhere come from the table |
| `DynEncode.ImmediateIs` | lib/luajit/dynasm/dasm_x86.h:402-410 | the bytes of an immediate operand, read with the sign of its kind, are the argument; four bytes hold it modulo 2^32 |
| `DynEncode.GlobalsAre` | lib/luajit/dynasm/dasm_x86.h:453-458 | after all sections, a global label that is defined has the address of its last definition in the order of the code; others keep what the table told before |
| `DynBinding.BranchBound` | lib/luajit/dynasm/dasm_x86.h:221-250 | told in the order of the calls: a forward reference lands on the next definition of its label, any other on the last one before it, or else the next; only globals may stay undefined, and are marked with their number |
| `DynBinding.PendingIff` | lib/luajit/dynasm/dasm_x86.h:221-228 | the label table is positive exactly if a reference to the label waits for a definition, and negative exactly if there is a definition and none waits |
| `DynEncode.BranchLands` | lib/luajit/dynasm/dasm_x86.h:432-444 | the encoded distance of a branch, of one byte or four, leads from its end to the final offset of its label |
| `DynLink.ShortBranchReaches` | lib/luajit/dynasm/dasm_x86.h:312-334 | a shrunk branch has a distance from -128 to 127, across sections and alignment, forward and backward |
| `DynMeaning.ShrunkIff` | lib/luajit/dynasm/dasm_x86.h:314-332 | a branch is shrunk exactly if its opcode is e9 or 0f 8x, its label is in the code, and that is near: by estimates ahead, by final offsets behind |
| `DynLink.Distances` | lib/luajit/dynasm/dasm_x86.h:312-348 | final distances between entries are at most the estimated ones, and never negative |
| `DynLabels.DefinedOk` | lib/luajit/dynasm/dasm_x86.h:245-250 | defining a label collapses its chain: chains stay acyclic, disjoint and ended by 0, and each waiting reference gets the position |
| `DynLabels.BoundOk` | lib/luajit/dynasm/dasm_x86.h:229-233 | a reference to a defined label holds the position of its last definition |
| `DynLabels.ChainedOk` | lib/luajit/dynasm/dasm_x86.h:224-237 | a reference that must wait becomes the head of the chain of its label |
| `BcTree.DumpBack` | lib/luajit/src/lj_bcread.c:309-455 | reading a dump gives the same function as was written (`SeenSame`), in either byte order of the writer and however the input is cut |
| `BcTree.SeenSame` | lib/luajit/src/lj_bcread.c:280-386 | for the whole tree: parameters, frame size, upvalues; a header of the right kind and the original code; constants, tables at every key, children; debug info unless stripped; only flags of the JIT compiler go, and a negative zero that was written as an integer comes back positive |
| `BcSame.WholeCode` | lib/luajit/src/lj_bcread.c:280-292 | if the header was that of a function not compiled yet, the instructions read back are the original ones from the first to the last |
| `BcExample.OnlyDumps` | lib/luajit/src/lj_bcread.c:388-402 | only a dump of this version, with no unknown flags and for the same frames, is loaded |
| `BcExample.DumpExample` | lib/luajit/src/lj_bcdump.h:15-35 | one dump, byte by byte, as the format description has it |
| `BcTree.TreeTurns` | lib/luajit/src/lj_bcread.c:422-455 | a subtree is read in a series of turns that leave its root on the stack in place of its children |
| `BcTree.SmallFits` | lib/luajit/src/lj_bcread.c:48-89 | a dump that fits the buffer as a whole meets the condition on the sizes of its parts |
| `BcRead.RoundTrip` | lib/luajit/src/lj_bcread.c:422-455 | the imperative reader, given what the writer passes on, succeeds with the same function |
| `BcRead.LexState.BcRead` | lib/luajit/src/lj_bcread.c:422-455 | for all input, well formed or not: the reader accepts exactly what the grammar does, with the same prototype |
| `BcWrite.BCWriteCtx.BcWrite` | lib/luajit/src/lj_bcwrite.c:309-371 | if it returns 0 the callback has got the dump; it does if the callback never fails and all fits a buffer; otherwise no more than a prefix was passed on |
| `BcWrite.BCWriteCtx.WriteProto` | lib/luajit/src/lj_bcwrite.c:242-306 | children first, then the prototype behind its size, patched in front of the body |
| `BcProto.ProtoBack` | lib/luajit/src/lj_bcread.c:309-386 | one prototype with its code, upvalues, constants and debug info is read back |
| `BcProto.CodeRestored` | lib/luajit/src/lj_bcwrite.c:213-239 | code with marks of the JIT compiler is written as the original code |
| `BcTable.SameMap` | lib/luajit/src/lj_bcread.c:201-222 | a template table read back has the same value at every key, but for the sign of a zero |
| `BcTable.ValueBack` | lib/luajit/src/lj_bcwrite.c:46-77 | a value is read back as it was exactly if it is no negative zero written as an integer |
| `BcTable.MinusZeroLost` | lib/luajit/src/lj_bcwrite.c:59-67 | the double with the bits of a negative zero, as a hand-made dump can have it, comes back as zero if it is written as an integer |
| `BcTable.BackSame` | lib/luajit/src/lj_bcwrite.c:46-77 | a list of constants comes back as it was exactly if no such zero is in it |
| `BcProto.KnBack` | lib/luajit/src/lj_bcwrite.c:180-210 | the same for numeric constants, and what becomes of the others |
| `Leb.ReadBack33` | lib/luajit/src/lj_bcread.c:136-150 | the 33 bit number of a word and its tag is read back, for every word |
| `Leb.Patched33` | lib/luajit/src/lj_bcwrite.c:186-207 | patching the fifth byte gives the ULEB128 form of the 33 bit number, also from 2^31 on |
| `Leb.SizeField` | lib/luajit/src/lj_bcwrite.c:297-305 | the size field computed without a loop is exactly as long as the ULEB128 form |
| `BcTypes.NarrowWidened` | lib/luajit/src/lj_bcwrite.c:60-70 | every 32 bit integer survives its conversion to a double, on the bits of the double |
| `BcExample.WidenValue` | lib/luajit/src/lj_bcwrite.c:60-70 | the double that an integer becomes has its value, by sign, exponent and mantissa |
| `TableSort.Sort` | lib/luajit/src/lib_table.c:300-309 | the array is permuted, whatever the comparison does; for a strict weak order it is sorted and no error is raised |
| `TableSort.AuxSort` | lib/luajit/src/lib_table.c:237-298 | the same for a range: nothing outside is touched, and fewer than 2^d elements need no more than d nested calls |
| `TableSort.Partition` | lib/luajit/src/lib_table.c:263-288 | the scans stay in the range; for a strict weak order the pivot ends between the smaller and the larger elements |
| `TableMove.Move` | lib/luajit/src/lib_table.c:132-149 | the destination range holds what the source range held before the call, also if both overlap in one table; nothing else changes |
| `Imm13.Exact` | lib/luajit/dynasm/dasm_arm64.h:185-214 | no immediate is refused; a result decodes to the word exactly if its first run does not cross its element |
| `Imm13.Exact32` | lib/luajit/dynasm/dasm_arm64.h:185-214 | for 32 bit words doubled up, -1 exactly for words that are no logical immediate, and else a 12 bit code that decodes to the word |
| `Imm13.WrongImmediate` | lib/luajit/dynasm/dasm_arm64.h:203-207 | 0xC3C3C3C3C3C3C3C0 gets code 179 and is no logical immediate |
| `Imm13.DasmImm13` | lib/luajit/dynasm/dasm_arm64.h:178-214 | the loops and bit operations on 64 bit words compute the arithmetic form that `Exact` is about |

DecodeBitMasks is that of chapter J1 of the Arm Architecture Reference Manual (DDI 0487), ULEB128 that of section 7.6
of DWARF 4, and the pattern language that of section 5.4.1 of the Lua 5.1 Reference Manual. Where the code and the
manual differ, as for backtracking into a position capture, the code is followed.

## Left out

Allocator:

- Head words are records of size and two bits, not packed words; the bins hold addresses in maps, not `fd` fields in memory.
- mmap, munmap and mremap may answer anything that is fresh, page aligned and below 2^47; the probing of hint addresses, 32 bit and Windows variants, and locks are not modelled.
- Sizes of chunks, segments and mappings are below 2^40, so that the cast in `compute_tree_index` loses nothing; requests are any 64 bit number.
- `lj_alloc_destroy` and the random state are not modelled.

Register allocation:

- Costs only steer choices: the victim of `ra_evict` and the picks of `ra_pick` and the head are arbitrary.
- Instructions have at most two operands and one result; calls, fixed destinations, `ra_left`, the base register, constants held in registers (`ra_allock`), the code of guards and exits, sinking and GC steps are not modelled; of snapshots, only the allocation of what escapes to them.
- The machine code limit (`checkmclim`) never strikes; which references are PHIs is given.
- Assembler.ASMState.HeadSide: states a sufficient condition for success, on the number of registers; `Shuffle` and `ReloadTarget` state when they fail.

Pattern matching:

- Plain search without specials (`lj_str_find`) and the formatting of numbers as replacement are parameters or absent.
- Replacement functions and tables are total functions of the captures; errors thrown from them end the run.
- PatternMeaning.MatchMeans: patterns are composed with magic characters escaped and without NUL characters; `Matching.MatchIsFirstDecomposition` is for every text.
- A NUL byte ends the pattern, as in the code; `lua_newbuffer` limits and memory errors are not modelled.

DynASM:

- The x86 operand actions DISP, VREG, MARK, SETLABEL, IMM_DB, IMM_WB depend on templates of `dynasm.lua`, which is not part of this model; other engines are not modelled.
- A shrinkable branch directly follows its opcode e9 or 0f 8x, as DynASM templates have it; one call of `dasm_put` takes no more buffer positions than DASM_MAXSECPOS, and sections are below 2^24.
- Between two steps `dasm_checkstep` forgets local labels; the model is of one step. `Link` requires what it checks, that no reference to a local label is pending.
- Once a call of `dasm_put` has failed, later ones store nothing in the model; the code stores on, and never links it.

Bytecode dump:

- Writer and reader agree on LJ_DUALNUM and LJ_FR2; the byte order may differ.
- BcTree.DumpBack: the parts of the dump that are read at once, and what the reader function gives at once, fit the buffer together (LJ_MAX_BUF).
- `lj_strfmt_wuleb128` is plain ULEB128 of a 32 bit word. ULEB128 numbers of more than five bytes, and reads behind the window, are errors in the model.
- Interning, garbage collection and memory errors are not modelled; `varinfo` is part of the debug bytes.

Others:

- Indices of `auxsort` are integers without wrap-around; comparison functions are total and do not change the table.
- `luaL_ref` and `luaL_unref`: a free list in a table whose border is up to the VM.
- The library functions around these cores, and everything that only wraps VM internals.
