# Verified models of five vendored algorithms

Dafny models of the hardest code in the repository, and proofs of what it promises. `dafny verify dfyconfig.toml`
checks everything. Every file holds one module.

- **The allocator of LuaJIT** (`Alloc*.dfy`, `Powers.dfy`): `lj_alloc.c`, a dlmalloc with boundary tags, 32 small
  bins in circular lists, 32 large bins in bitwise tries with rings of equal sizes, a designated victim, a top chunk
  and a list of segments. `AllocMaps` models the bit maps of the bins as 32-bit words, `AllocSizes` the arithmetic of
  sizes and bins, `AllocLinks`, `AllocTrie`, `AllocTrieLinks` and `AllocBins` the linked structures, `AllocSearch`
  the best fit, `AllocHeap`, `AllocFree`, `AllocSegments` and `AllocMapping` what each rewriting of tags does to the
  layout, `AllocStock` which free memory a request is served from, and `Allocator` the operations themselves. The
  invariant `Arena.Valid` says that chunks tile the segments, tags agree between neighbours, no two free chunks touch,
  and every free chunk but victim and top is in one bin, the one of its size.
- **The kd-tree** (`Kd*.dfy`): insertion, erasure, search, iteration and rebuilding over parent-linked nodes, with
  any dimension K >= 1. A ghost `Shape` is the tree the links spell out.
- **DynASM** (`Dasm*.dfy`): the x86 encoding engine. Pass 1 keeps unresolved references in chains through its own
  buffer, pass 2 shrinks branches by estimates, pass 3 emits bytes. A log of references and definitions is the
  specification of the chains. `DasmBuild` runs all passes as LuaJIT's generator does, for any sequence of calls.
- **Lua patterns, side traces, sorting, references** (`Pattern*.dfy`, `SideTrace.dfy`, `TableSort.dfy`,
  `RefTable.dfy`): the backtracking matcher against a list of all its results in order of priority, and what each
  form of a pattern means byte by byte; the parallel move at the head of a side trace; `auxsort`; `luaL_ref` with
  its free list inside the table.
- **json_spirit** (`Json*.dfy`): escaping and the generator, the grammar with its semantic actions, which texts it
  reads and what they mean, and the round trip.

Code that updates fields and arrays is a class or a method with loops, proved against a function of its inputs or of
the old state; what the source promises is proved about those functions.

## Where the code does not do what it is for

- `compute_tree_index` is exact only below 2^40, or where the low 40 bits alone belong to the last bin
  (`AllocSizes.TreeIndexExact`, with the input 2^40 in `TreeIndexWraps`).
- `find_nearest_if` leaves its bound as it was where it should narrow it to the distance of the root
  (kdtree++/kdtree.hpp:572). `KdNearest.NearestIfExactly` says when the answer is still right, `NearestIfFails` gives
  an input for which it is not. The comment of `_S_node_nearest` (kdtree++/node.hpp:190-191) promises the node with
  the lowest address among equally near ones; the code does not compare addresses, and the model follows the code.
- The plain short cut of `string.find` is taken for patterns without special characters, but a zero character ends a
  pattern and a closing parenthesis is an error in one. `PatternFind.PlainExactly` says that these two are the only
  differences.
- The coalescing of a side trace gives up if a cycle has no register of its kind to break it, and only then
  (`SideTrace.Assembler.Shuffle`).
- While a free key is nil, `lua_objlen` may return a border before a live reference (`RefTable.BorderNotEnd`), and
  exactly then: `RefTable.BorderExactly`. `luaL_ref` asks for the length only when the list is empty, and then there
  is but one border (`RefTable.BorderIsEnd`). `luaL_unref` does not check its argument: what it leaves behind is a
  consistent table for the live references, for the next key behind the end, and for the key of the list itself while
  there is no free key to forget, and for no other (`RefTable.PutFreeExactly`).
- `dasm_link` reports references to PC labels that do not exist, but not those to local labels: it takes what is left
  of the chain for positions, and such a reference leads anywhere. `DasmStray.JumpToNowhere` is a program for which
  nothing fails and the code is a jump to itself. All references are resolved exactly if none waits for a local label
  (`DasmStray.ResolvedExactly`), which `dasm_checkstep` tells beforehand (`DasmAssembler.Assembler.CheckStep`).
- json_spirit's `read_string` accepts any text that starts with a value and ignores the rest
  (`JsonRoundTrip.ValueBack`). The note that a number was unsigned comes back just for numbers from 2^63 on
  (`JsonRoundTrip.NumberBack`).

## Model

| member | source | states |
|---|---|---|
| Allocator.Arena.UserMemory | LuaJIT-2.0.3/src/lj_alloc.c:324-352 | In every valid state the memory of a live block is 8-byte aligned, holds at least the bytes asked for, and meets neither the memory of another live block nor any word the allocator keeps: the head of any chunk, all of a chunk that is not a block with its links and its foot, the end of a segment, and the first words and end marks of a direct chunk. |
| Allocator.Arena.constructor | LuaJIT-2.0.3/src/lj_alloc.c:1138-1160 | The first mapped region becomes a valid heap with no live block, all of it top but for the chunk of the state itself. |
| Allocator.Arena.Malloc | LuaJIT-2.0.3/src/lj_alloc.c:1174-1255 | Keeps the heap valid; on success exactly one block is added, at an address no live block had, large enough for the request, and on failure nothing has changed. It fails exactly if the request is too big, or no binned chunk, nor the victim, nor the top is large enough and the system refuses every mapping asked for; it says where the chunk comes from and what is left of that, and the calls to the system are exactly those. |
| AllocStock.AskSizes | LuaJIT-2.0.3/src/lj_alloc.c:895-918 | The sizes asked of the system are the least multiples of the page size and of the granularity that hold the chunk and what goes with it; just sizes next to 2^64 wrap around and are not asked for. |
| AllocStock.Surplus | LuaJIT-2.0.3/src/lj_alloc.c:1004-1010 | The top shrinks by whole units, to more than the padding, by no more than a unit. |
| Allocator.Arena.Free | LuaJIT-2.0.3/src/lj_alloc.c:1257-1326 | Keeps the heap valid, and takes exactly the freed block from the live ones; its memory, consolidated in both directions, is in the top, the victim or a bin afterwards. A top that is larger than the threshold is trimmed, unused segments are released each time the counter runs out, and threshold and counter are set anew. A direct chunk is unmapped; a null pointer changes nothing. No other calls are made to the system. |
| Allocator.Arena.Realloc | LuaJIT-2.0.3/src/lj_alloc.c:1328-1376 | Keeps the heap valid; on success the block is replaced by one that is large enough, all others are kept, the first min(old usable size, new size) bytes are the old ones, and no byte of user data outside the new request is changed. The block stays exactly if its chunk is large enough, or is together with the top behind it, or the system resizes a direct chunk; it fails only if the request is too big, or neither stock nor system have memory, and then nothing has changed. |
| Allocator.Arena.AllocF | LuaJIT-2.0.3/src/lj_alloc.c:1378-1388 | The single entry behaves as free, malloc or realloc by its arguments, with the guarantees of each. |
| Allocator.Arena.TMallocLarge | LuaJIT-2.0.3/src/lj_alloc.c:1042-1103 | Succeeds exactly if some binned chunk is large enough and, where the designated victim would do, strictly smaller than it; the chunk taken is a smallest one that is large enough, and its rest goes back into a bin. |
| Allocator.Arena.TMallocSmall | LuaJIT-2.0.3/src/lj_alloc.c:1106-1134 | Takes for a small request a chunk of the tree bins that is as small as any of them, keeps the heap valid, and makes the rest the designated victim, with an earlier victim in a bin. |
| Allocator.Arena.SmallFromBins | LuaJIT-2.0.3/src/lj_alloc.c:1179-1219 | A small request is served from the bins exactly if a chunk has its size, or the next one, or if the victim is too small and some chunk is large enough; the chunk is a smallest one, and the rest becomes the victim. Else nothing changes. |
| Allocator.Arena.FromVictim | LuaJIT-2.0.3/src/lj_alloc.c:1229-1244 | Splitting or exhausting the designated victim adds exactly one block of at least the size needed. |
| Allocator.Arena.FromTop | LuaJIT-2.0.3/src/lj_alloc.c:1245-1253 | Splitting the top adds exactly one block of the size needed. |
| Allocator.Arena.AllocSys | LuaJIT-2.0.3/src/lj_alloc.c:895-952 | The mappings asked for have the sizes they should; the first that is granted yields a direct chunk, or a region that extends the current segment, or the segment behind it, or becomes a new one, with one block in it and the rest in the stock. If all are refused, nothing changes. |
| Allocator.Arena.Append | LuaJIT-2.0.3/src/lj_alloc.c:919-926 | A region right behind the segment of the top extends segment and top, and no block changes. |
| Allocator.Arena.AddSegment | LuaJIT-2.0.3/src/lj_alloc.c:847-892 | A region elsewhere becomes the current segment, all of it top; the old top is retired with fenceposts and a segment record, the heap stays valid, and no block changes. |
| Allocator.Arena.PrependAlloc | LuaJIT-2.0.3/src/lj_alloc.c:814-844 | A region right before a segment yields one block, its rest is consolidated with the first chunk of that segment, and the heap stays valid. |
| Allocator.Arena.ReleaseUnusedSegments | LuaJIT-2.0.3/src/lj_alloc.c:957-996 | Every segment but the current one that holds nothing but one free chunk is unmapped, unless the system refuses; no other memory is, and nothing else changes. |
| Allocator.Arena.AllocTrim | LuaJIT-2.0.3/src/lj_alloc.c:999-1036 | The top gives back the units it has beyond the padding, by resizing its segment or else by unmapping its end, unless the system refuses both or a segment record lies there, and unused segments are released; it reports whether there was anything, and if not, the top is not trimmed again. |
| Allocator.Arena.DirectAlloc | LuaJIT-2.0.3/src/lj_alloc.c:738-754 | A directly mapped chunk meets no segment and no other direct chunk; sizes that wrap around fail, without a call to the system. |
| Allocator.Arena.DirectResize | LuaJIT-2.0.3/src/lj_alloc.c:757-784 | A direct chunk is kept if it is large enough but not too large, and else the system is asked to resize it in place; it still meets nothing else, and on failure it is as it was. |
| Allocator.Arena.GrowIntoTop | LuaJIT-2.0.3/src/lj_alloc.c:1352-1362 | A chunk before the top grows into it, and only its own size changes. |
| Allocator.Arena.ShrinkInPlace | LuaJIT-2.0.3/src/lj_alloc.c:1343-1351 | A chunk that is large enough keeps its place; a rest of chunk size is freed, and the heap stays valid. |
| AllocSizes.TreeIndexExact | LuaJIT-2.0.3/src/lj_alloc.c:527-552 | compute_tree_index names the bin whose range of sizes holds a large size if and only if the size is below 2^40 or its low 40 bits belong to the last bin. |
| AllocSizes.TreeIndexWraps | LuaJIT-2.0.3/src/lj_alloc.c:527-539 | For the size 2^40 it names bin 0, whose range does not hold it. |
| AllocSizes.BinsOrdered | LuaJIT-2.0.3/src/lj_alloc.c:541-552 | The ranges of the tree bins are disjoint and ordered as the bins are. |
| AllocMaps.MarkExactly | LuaJIT-2.0.3/src/lj_alloc.c:556-566 | On 32-bit words, marking and clearing a bin change the bit of that bin and no other. |
| AllocMaps.LeftBitsExactly | LuaJIT-2.0.3/src/lj_alloc.c:557-569 | On 32-bit words, masking a map with left_bits(idx2bit(i)), two's complement and overflow of the shift included, keeps exactly the bins above i. |
| AllocMaps.SmallBits | LuaJIT-2.0.3/src/lj_alloc.c:1183-1196 | After the shift by idx, the low two bits say whether bins idx and idx + 1 are marked, the complement of the lowest which of them to use, and zero that no bin from idx on is marked. |
| AllocMaps.NextSmall | LuaJIT-2.0.3/src/lj_alloc.c:1196-1201 | Shifting back, masking with left_bits and taking the lowest bit yields the first marked bin above idx. |
| AllocMaps.LowestAbove | LuaJIT-2.0.3/src/lj_alloc.c:1074-1078 | The next tree bin taken is the lowest marked one above idx, and there is none exactly if the mask leaves nothing. |
| AllocBins.Bins.InsertSmall | LuaJIT-2.0.3/src/lj_alloc.c:588-600 | Linking a chunk into a circular small bin keeps all bins and maps valid and adds exactly that chunk. |
| AllocBins.Bins.UnlinkSmall | LuaJIT-2.0.3/src/lj_alloc.c:603-613 | Unlinking a chunk from anywhere in a small bin keeps all bins and maps valid and removes exactly that chunk. |
| AllocBins.Bins.UnlinkFirstSmall | LuaJIT-2.0.3/src/lj_alloc.c:616-625 | The first chunk of a marked small bin has the size of the bin, and is removed as exactly one chunk. |
| AllocBins.Bins.InsertLarge | LuaJIT-2.0.3/src/lj_alloc.c:641-677 | The walk down the trie puts a large chunk into an empty place or into the ring of its size; the bins stay bitwise tries with rings of equal sizes, and gain exactly that chunk. |
| AllocBins.Bins.UnlinkLarge | LuaJIT-2.0.3/src/lj_alloc.c:680-725 | Unlinking a large chunk, also when an arbitrary leaf takes its place, leaves valid tries and removes exactly that chunk. |
| AllocSearch.FindBest | LuaJIT-2.0.3/src/lj_alloc.c:1042-1087 | The descent with its deepest untaken right subtree, the jump to the next marked bin and the walk to leftmost children find a smallest chunk of at least nb over all tree bins, with every comparison on sizes that wrap around; the result is none only if there is no such chunk. |
| AllocSearch.FindLeast | LuaJIT-2.0.3/src/lj_alloc.c:1106-1124 | The walk over leftmost children of the lowest marked bin finds a smallest chunk of all tree bins. |
| KdNearest.NodeNearest | kdtree++/node.hpp:196-349 | The stackless walk down and up the parent links terminates and computes the recursive branch-and-bound search. |
| KdNearest.SearchOutcome | kdtree++/node.hpp:203-349 | That search ends with an admissible node at the least distance if one lies within the bound, and otherwise with what it started from: the pruned subtrees hold nothing nearer. |
| KdNearest.FindNearest | kdtree++/kdtree.hpp:505-523 | find_nearest without a bound returns a nearest stored value and its distance; end() only for the empty tree. |
| KdGeometry.DistOnAxis | kdtree++/node.hpp:161-169 | Along one axis the distance is the square of the difference of the coordinates. |
| KdGeometry.DistOverCorner | kdtree++/node.hpp:161-169 | Over a corner, distances add up: with the law on axes this leaves only the sum of squares over all dimensions. |
| KdShape.OrderInCoordinates | kdtree++/kdtree.hpp:669-685 | In coordinates: in a tree in kd order, dimension d % K is at most that of a node at depth d on its left, and at least that on its right. |
| KdNearest.FindNearestWithin | kdtree++/kdtree.hpp:525-553 | find_nearest with a bound returns a nearest value within it, and end() exactly if there is none. |
| KdNearest.FindNearestIf | kdtree++/kdtree.hpp:555-587 | find_nearest_if computes the answer that the next two rows judge. |
| KdNearest.NearestIfExactly | kdtree++/kdtree.hpp:555-587 | That answer is a nearest admissible value if and only if the root is not admissible, or lies exactly on the bound, or some other admissible value is at least as near as the root. |
| KdNearest.NearestIfFails | kdtree++/kdtree.hpp:564-579 | An input on which the farther of two admissible values is returned. |
| KdTree.Tree.Insert | kdtree++/kdtree.hpp:315-328 | Insertion rewires parent links, root, leftmost and rightmost to the tree with exactly one more node, and keeps the kd order and the count. |
| KdErase.InsertKeepsOrder | kdtree++/kdtree.hpp:669-685 | Placing a node by the descent keeps the order of both subtrees on every level, equal keys on either side. |
| KdTree.Tree.Erase | kdtree++/kdtree.hpp:373-384 | erase removes exactly the given node and keeps order, links, root, leftmost, rightmost and count. |
| KdTree.Tree.EraseNode | kdtree++/kdtree.hpp:687-773 | The mutual recursion of erasing and finding a replacement rewires the links to the tree that EraseAt describes. |
| KdErase.EraseAtCorrect | kdtree++/kdtree.hpp:609-639 | Replacing an erased node by the least value on its right or the greatest on its left, all the way down, loses exactly that node and keeps the weak order of every level that check_tree checks. |
| KdTree.Tree.FindValue | kdtree++/kdtree.hpp:403-434 | find and find_exact return a stored value of the same place or the same value, and end() only if there is none, with ties on both sides of a node. |
| KdTree.Tree.EraseSubtree | kdtree++/kdtree.hpp:836-846 | Every node of the subtree is deleted exactly once, no other node is touched, and no link of a node is read after its deletion. |
| KdTree.Tree.Clear | kdtree++/kdtree.hpp:252-260 | clear leaves a valid empty tree. |
| KdRange.Region.IntersectsWith | kdtree++/region.hpp:73-83 | Two regions intersect exactly if no dimension separates them; regions that do not intersect share no value. |
| KdRange.OverwriteCovers | kdtree++/kdtree.hpp:930-946 | Overwriting one bound with the coordinate of the node, instead of tightening it, loses no value of that side that the region holds. |
| KdRange.InsideIsExact | kdtree++/kdtree.hpp:986-1015 | The values reported for a region are the multiset of the stored values inside it. |
| KdRange.FindWithinRange | kdtree++/kdtree.hpp:492-503 | find_within_range appends exactly those values, node before left before right, in spite of the pruning. |
| KdRange.CountWithinRange | kdtree++/kdtree.hpp:445-453 | count_within_range is their number. |
| KdRange.VisitWithinRange | kdtree++/kdtree.hpp:465-474 | visit_within_range calls the visitor with exactly those values, in that order, and returns the visitor that has seen them all. |
| KdIterator.Traverse | kdtree++/iterator.hpp:60-80 | From begin() to end() every node is visited once, in the order left, node, right, and the loop stops at the header. |
| KdIterator.TraverseBack | kdtree++/iterator.hpp:82-107 | From end() back to begin() the same nodes are visited in reverse. |
| KdOptimise.Rebuild | kdtree++/kdtree.hpp:191-195 | efficient_replace_and_optimise leaves a valid tree with exactly the given values; if no coordinate repeats, its height is floor(log2 n) + 1, although every value is inserted from the root. |
| KdOptimise.OptimiseTree | kdtree++/kdtree.hpp:588-594 | optimise() collects the values with the iterator, clears the tree and rebuilds it: the multiset of values and the count are kept, and if no coordinate repeats, the height is floor(log2 n) + 1. |
| DasmAssembler.Assembler.constructor | LuaJIT-2.0.3/dynasm/dasm_x86.h:84-151 | A new encoder has no open reference, no defined label, and empty sections. |
| DasmAssembler.Assembler.Put | LuaJIT-2.0.3/dynasm/dasm_x86.h:166-262 | Pass 1 keeps the invariant of the label chains, the globals and the sizes of the label tables; it succeeds exactly if every action passes its checks, and then the section holds the decoded actions with their arguments as well, the log the references and definitions among them at their positions, and the section named by the last action is active. |
| DasmAssembler.Assembler.PutAction | LuaJIT-2.0.3/dynasm/dasm_x86.h:191-256 | A single action succeeds exactly if its argument passes the checks: labels and sections in range, signed and unsigned bytes that fit, backward references to labels that are known. |
| DasmLabels.RefersTo | LuaJIT-2.0.3/dynasm/dasm_x86.h:211-244 | In the log, a reference to a known label means its most recent definition, and any other one the next definition, also when local labels are redefined. |
| DasmLabels.KnownExactly | LuaJIT-2.0.3/dynasm/dasm_x86.h:211-244 | A label is known exactly if it was defined and no reference since has asked for a later definition. |
| DasmMemory.ReferenceHolds | LuaJIT-2.0.3/dynasm/dasm_x86.h:213-244 | Under the invariant of the chains the word at a reference holds the position of the definition it means, or the reference is in the chain of its label. |
| DasmAssembler.Assembler.CheckStep | LuaJIT-2.0.3/dynasm/dasm_x86.h:454-469 | After an error dasm_checkstep does nothing; else it fails exactly if a reference waits for a local label or the section is not the expected one, names the first such label or the section, and otherwise forgets all local labels. |
| DasmAssembler.Assembler.Link | LuaJIT-2.0.3/dynasm/dasm_x86.h:265-346 | Pass 2 succeeds exactly if no check failed and no reference waits for a PC label, whether or not one waits for a local label, and leaves sections laid out one behind the other, labels fixed, and branches decided. |
| DasmLayout.Slack | LuaJIT-2.0.3/dynasm/dasm_x86.h:291-341 | Final offsets ascend, and fall behind the estimates of pass 1 by more and more: no later shrinking or alignment can bring two places farther apart than estimated. |
| DasmLink.ShortBranches | LuaJIT-2.0.3/dynasm/dasm_x86.h:303-324 | Every branch that was shrunk because of estimates has a final displacement in [-128, 127], unless it still waits for a local label. |
| DasmAssembler.Assembler.Encode | LuaJIT-2.0.3/dynasm/dasm_x86.h:359-439 | Pass 3 emits exactly codesize bytes, step for step the image of the sections, without a phase error, and sets the addresses of the globals. |
| DasmImage.BranchLands | LuaJIT-2.0.3/dynasm/dasm_x86.h:395-412 | In the emitted bytes the displacement of every branch to a label of this code, long or short, added to the end of the branch is the place where encoding reaches the label, and every address of a label is its address; shrunk branches have the short opcode of their long one. |
| DasmImage.GlobalDefined | LuaJIT-2.0.3/dynasm/dasm_x86.h:413-418 | A global label ends up with the address where encoding reached the last of its definitions. |
| DasmImage.GlobalKept | LuaJIT-2.0.3/dynasm/dasm_x86.h:413-418 | A global that this code does not define keeps its address. |
| DasmAssembler.Assembler.GetPcLabel | LuaJIT-2.0.3/dynasm/dasm_x86.h:441-451 | After linking, a defined PC label yields its final offset, and any other number -2. |
| DasmBuild.BuildCode | LuaJIT-2.0.3/src/host/buildvm.c:170-241 | For every sequence of well-formed calls the whole run succeeds exactly if all actions pass their checks, no reference is left waiting, and all PC labels and globals are defined. Then the code is exactly codesize bytes, every number of the action list has put down its bytes, and every reference leads to the definition it means; the offsets of PC labels and the addresses of globals are the places of their last definitions. |
| DasmBytes.ProgramReads | LuaJIT-2.0.3/dynasm/dasm_x86.h:189-262 | By number: which numbers of an action list have another one behind them, which take the next argument, and which end the list. |
| DasmBytes.ChecksByNumber | LuaJIT-2.0.3/dynasm/dasm_x86.h:197-256 | By number: which arguments, labels and sections pass the checks. |
| DasmBytes.LabelsByNumber | LuaJIT-2.0.3/dynasm/dasm_x86.h:207-256 | By number: what is a reference, forward or not, and what a definition, and to which label; which section comes next. |
| DasmBytes.BytesByNumber | LuaJIT-2.0.3/dynasm/dasm_x86.h:359-439 | By number: a literal byte stands in the code as itself, unless a short branch or a short immediate right behind changes it; arguments are one, two or four bytes, the lowest first, the short forms one byte with 2 added to the opcode; space, padding to the next multiple, and nothing for labels. |
| DasmBytes.BranchesShrink | LuaJIT-2.0.3/dynasm/dasm_x86.h:303-324 | A branch back is short exactly if its distance then fits into a byte; a branch ahead exactly if that holds with all steps between at their full size. |
| DasmBytes.EstimateByNumber | LuaJIT-2.0.3/dynasm/dasm_x86.h:191-256 | By number: the most bytes an action can take, which pass 1 adds up. |
| DasmBytes.WordsRead | LuaJIT-2.0.3/dynasm/dasm_x86.h:349-357 | Four bytes are read with the lowest first. |
| DasmBuild.ReferenceFinds | LuaJIT-2.0.3/dynasm/dasm_x86.h:167-439 | The bytes of a reference lead to the place where encoding reaches the definition that the log gives it: the most recent one of a known label, or else the next one. |
| DasmStray.ResolvedExactly | LuaJIT-2.0.3/dynasm/dasm_x86.h:266-289 | Every reference to a local label is resolved if and only if none waits for a local label, the condition dasm_checkstep tests and dasm_link does not. |
| DasmStray.StrayLeads | LuaJIT-2.0.3/dynasm/dasm_x86.h:304-324 | A reference that waits for a local label is emitted as leading to the offset that the word behind it in the chain holds. |
| DasmStray.JumpToNowhere | LuaJIT-2.0.3/dynasm/dasm_x86.h:266-289 | A program with a jump to a local label that does not exist is put, linked and encoded without an error, to a jump to itself. |
| PatternMatch.MatchState.DoMatch | LuaJIT-2.0.3/src/lib_string.c:368-451 | match returns the first of all results of the parsed pattern in order of priority, and fails exactly if there is none; after a failure the captures and the depth are as they were. Malformed patterns and the depth limit are results of their own. |
| PatternLaws.AtomParsed | LuaJIT-2.0.3/src/lib_string.c:205-277 | A dot, a character, % with a character, or a set in brackets, byte by byte: which characters it admits. |
| PatternLaws.AtomTakesOne | LuaJIT-2.0.3/src/lib_string.c:441-444 | Without a suffix, an item takes one character that it admits. |
| PatternLaws.StarTakesLongest | LuaJIT-2.0.3/src/lib_string.c:432-434 | With * (42), an item takes the longest run after which the rest of the pattern matches. |
| PatternLaws.PlusTakesLongest | LuaJIT-2.0.3/src/lib_string.c:435-437 | With + (43), the same, but one character at least. |
| PatternLaws.MinusTakesShortest | LuaJIT-2.0.3/src/lib_string.c:438-440 | With - (45), an item takes the shortest run after which the rest matches. |
| PatternLaws.MarkTakesOneFirst | LuaJIT-2.0.3/src/lib_string.c:423-431 | With ? (63), an item takes one character if there is one and the rest matches behind it, and else none. |
| PatternLaws.AloneEnds | LuaJIT-2.0.3/src/lib_string.c:419-446 | A pattern of one item with a suffix ends behind the longest run for * and +, where it started for -, and behind one character for ? if there is one. |
| PatternLaws.ParenthesisOpens | LuaJIT-2.0.3/src/lib_string.c:374-379 | A parenthesis starts a capture at this place, at most 32 of them; two in a row are a position capture. |
| PatternLaws.ParenthesisCloses | LuaJIT-2.0.3/src/lib_string.c:380-382 | A closing parenthesis ends the innermost open capture, which is the text since its start. |
| PatternLaws.NoneToClose | LuaJIT-2.0.3/src/lib_string.c:196-203 | A closing parenthesis with no open capture is the error of an invalid pattern. |
| PatternLaws.DigitMatchesAgain | LuaJIT-2.0.3/src/lib_string.c:403-410 | % and a digit match the text of that capture again; a capture that is open or missing is an error. |
| PatternLaws.BalanceTakes | LuaJIT-2.0.3/src/lib_string.c:281-300 | %b takes the text from the opening character to the first place where both characters have occurred equally often. |
| PatternLaws.FrontierMeans | LuaJIT-2.0.3/src/lib_string.c:390-402 | %f holds between a character outside the set and one inside, where both ends of the subject count as zero. |
| PatternLaws.DollarAtEnd | LuaJIT-2.0.3/src/lib_string.c:414-418 | A dollar sign at the end of the pattern matches only at the end of the subject. |
| PatternMatch.MatchState.MaxExpand | LuaJIT-2.0.3/src/lib_string.c:302-315 | The loop from the longest run downwards delivers the first result of that order. |
| PatternMatch.MatchState.MinExpand | LuaJIT-2.0.3/src/lib_string.c:317-329 | The loop from the empty run upwards delivers the first result of that order. |
| PatternMatch.MatchState.StartCapture | LuaJIT-2.0.3/src/lib_string.c:331-343 | An opened capture is undone if the rest fails, and limited in number. |
| PatternMatch.MatchState.EndCapture | LuaJIT-2.0.3/src/lib_string.c:345-354 | The innermost open capture is closed, and opened again if the rest fails. |
| PatternMatch.MatchState.MatchBalance | LuaJIT-2.0.3/src/lib_string.c:281-300 | %b ends at the first place where the nesting returns to zero. |
| PatternMatch.MatchState.MatchCapture | LuaJIT-2.0.3/src/lib_string.c:356-366 | %1 to %9 match the text of a finished capture again. |
| PatternMatch.MatchState.MatchBracketClass | LuaJIT-2.0.3/src/lib_string.c:246-267 | Matching against the raw text of a set agrees with membership in the parsed set. |
| PatternMatch.MatchState.FindClassEnd | LuaJIT-2.0.3/src/lib_string.c:205-224 | The end of a class agrees with the parser, and malformed ones are reported. |
| PatternFind.StrFindAux | LuaJIT-2.0.3/src/lib_string.c:511-559 | string.find and string.match answer with the first start from the initial position on that has a result, and its first result; the plain search with the first occurrence. |
| PatternFind.MemChr | LuaJIT-2.0.3/src/lib_string.c:464 | The first occurrence of a character among the next n, or none. |
| PatternFind.LMemFind | LuaJIT-2.0.3/src/lib_string.c:453-475 | The first occurrence of a string at or behind the start, or none if there is none. |
| PatternFind.PlainExactly | LuaJIT-2.0.3/src/lib_string.c:527-535 | For a pattern without special characters, plain search and pattern matching agree at every place of every subject if and only if the pattern has neither a zero character nor a closing parenthesis. |
| PatternFind.ShortCutAnswers | LuaJIT-2.0.3/src/lib_string.c:527-535 | Where they agree, the short cut gives the answer that the pattern search would have given. |
| PatternFind.PushCaptures | LuaJIT-2.0.3/src/lib_string.c:477-502 | All captures are handed out as text, or as positions counted from 1, or the whole match if there are none; an unfinished one is an error. |
| PatternFind.StartsThere | LuaJIT-2.0.3/src/lib_string.c:504-520 | A start position counts from 1, or back from the end if it is negative, and is moved to the nearest end if it lies outside. |
| SideTrace.Assembler.Shuffle | LuaJIT-2.0.3/src/lj_asm.c:1472-1506 | The loop terminates; unless some cycle has no temporary register of its kind, the moves, run in the order opposite to their emission, carry every live parent register into its target and spare the registers that are already right. |
| SideTrace.Assembler.HeadSide | LuaJIT-2.0.3/src/lj_asm.c:1415-1506 | With the scan before it, every inherited instruction finds the value of its parent register in its own register, whatever cycles the two assignments form. |
| TableSort.Partition | LuaJIT-2.0.3/src/lib_table.c:221-247 | Partitioning permutes the range, and for a function that answers as a strict weak order does puts the pivot between smaller and larger values without running out of the range. |
| TableSort.AuxSort | LuaJIT-2.0.3/src/lib_table.c:195-256 | Whatever the comparison function answers, and be it something else for the same pair each time it is asked, the sort ends, the range is permuted, nothing outside is touched, and the recursion is at most log2 of the range deep; if it answers as a strict weak order does, the range is sorted and the function never called invalid. |
| TableSort.TableSort | LuaJIT-2.0.3/src/lib_table.c:258-267 | The same for a whole table from slot 1 on. |
| RefTable.BorderIsEnd | LuaJIT-2.0.3/src/lib_aux.c:272-275 | While the free list is empty the table is dense from 1, so that the only border is its end and the key behind it is fresh. |
| RefTable.BorderExactly | LuaJIT-2.0.3/src/lib_aux.c:266-275 | In any consistent table every border is the end if and only if the last free key, the only one that may be, is not nil, or there is none. |
| RefTable.BorderNotEnd | LuaJIT-2.0.3/src/lib_aux.c:272-275 | A table with a border at 0 although reference 2 is live. |
| RefTable.Refs.Ref | LuaJIT-2.0.3/src/lib_aux.c:258-278 | Over any run a new reference is not live yet, holds its value, and leaves all others as they are; nil has its fixed reference. |
| RefTable.Refs.Unref | LuaJIT-2.0.3/src/lib_aux.c:280-289 | Freeing a live reference puts just that one on the free list; negative ones are ignored. |
| RefTable.PutFreeExactly | LuaJIT-2.0.3/src/lib_aux.c:280-289 | Some free list and some end make what luaL_unref leaves behind consistent for the other live references, if and only if the argument is live, or the key right behind the end, or the key of the list while the list is empty or holds just the last key and that is nil; any other argument closes the list to a cycle, leaves a gap, or forgets a free key. |
| JsonText.UnescapeEscape | json_spirit/json_spirit_writer_template.h:45-91 | Unescaping undoes escaping, for every byte string and every choice of printable characters. |
| JsonText.HexBack | json_spirit/json_spirit_writer_template.h:28-43 | The four hexadecimal digits written for a byte are read back as that byte. |
| JsonText.SubstituteEscChars | json_spirit/json_spirit_reader_template.h:122-156 | The loop over substrings, with its early end and its escapes that are cut short, computes the decoding of the text escape by escape. |
| JsonText.AppendEscChar | json_spirit/json_spirit_reader_template.h:84-120 | Each escape appends what it stands for and takes the characters that belong to it; unknown and truncated ones append nothing. |
| JsonText.AddEscChars | json_spirit/json_spirit_writer_template.h:62-91 | The loop computes the concatenation of the codes of all characters. |
| JsonWriter.Generator.Output | json_spirit/json_spirit_writer_template.h:118-217 | The generator appends the text of the value at the current level, and returns to that level. |
| JsonWriter.WriteString | json_spirit/json_spirit_writer_template.h:226-242 | write_string yields exactly the text that the round trip below is about. |
| JsonRoundTrip.WrittenText | json_spirit/json_spirit_writer_template.h:105-217 | What is written is the text of a layout that means the value: escapes as the table has them and the other codes with four upper-case digits; in pretty form every entry on a line of its own, four spaces deeper for each level, and a space on both sides of a colon. |
| JsonRoundTrip.StringBack | json_spirit/json_spirit_reader_template.h:486-496 | A written string is read up to its closing quotation mark, whatever follows, and yields the string. |
| JsonRoundTrip.NumberBack | json_spirit/json_spirit_reader_template.h:498-502 | A written 64-bit number, signed or unsigned, is read with the same bits; the note that it is unsigned is kept exactly for numbers from 2^63 on. |
| JsonRoundTrip.ValueBack | json_spirit/json_spirit_reader_template.h:450-484 | The grammar takes back exactly the text of any nesting of values, in compact and pretty form and at any level, and leaves what follows it alone. |
| JsonRoundTrip.ReadBack | json_spirit/json_spirit_writer_template.h:96-224 | Reading back what was written gives an equal value, with nothing left over. |
| JsonRoundTrip.ReadWriteRead | json_spirit/json_spirit_reader_template.h:517-574 | A value that was read from any text is the same, not just equal, after it was written and read again. |
| JsonTree.OpenFillClose | json_spirit/json_spirit_reader_template.h:302-327 | Opening an object or array in place, filling it through the current pointer and closing it has the effect of adding the whole value, and returns to the place before. |
| JsonLayout.StringRead | json_spirit/json_spirit_reader_template.h:486-496 | Any string of characters and escapes is read as what these mean: the letters of a table, two or four hexadecimal digits in either case, and nothing for any other escape. |
| JsonLayout.NumberRead | json_spirit/json_spirit_reader_template.h:498-502 | Digits with or without a sign are read as the number they mean in decimal, if it fits into 64 bits. |
| JsonLayout.LayoutRead | json_spirit/json_spirit_reader_template.h:434-502 | Every text of a value, with any white space between its tokens, is read as what it means, and what follows is left alone. |
| JsonSound.ValueSound | json_spirit/json_spirit_reader_template.h:434-502 | Nothing else is read: where a value is read, the text starts with a text of that value. |
| JsonReader.SemanticActions.AddToCurrent | json_spirit/json_spirit_reader_template.h:329-345 | A value is added behind the children of the current array or object, or becomes the root; the pointers kept on the stack are to proper ancestors of the place that grows. |
| JsonReader.ReadValue | json_spirit/json_spirit_reader_template.h:450-502 | The rules fire their actions as they match: a match has added exactly the value of the rule to the tree, and a rule that fails without an exception has changed nothing. |
| JsonReader.ReadString | json_spirit/json_spirit_reader_template.h:568-574 | read_string succeeds exactly if the text starts with a value in any of the forms of the grammar, and yields what that text means. |

## Left out

The allocator:
- Realloc: heads, feet, links, tags of direct chunks and the user's bytes are separate maps by address, not one
  memory. `UserMemory` shows for every valid state that user memory meets no word of the allocator; that no word
  written in the middle of an operation lies in a block that survives it is not stated.
- The list of segments is a sequence, with the addresses of its records.
- The calls to the operating system are nondeterministic: they fail, or return aligned memory nobody holds; each
  call is put in a log. `align_offset` is 0 for such memory.
- `lj_alloc_destroy`, and the platforms' variants of the mapping calls.

The kd-tree:
- Distances are squared, and over integers; the source compares square roots.
- `nth_element` is a selection by its specification.
- Deallocation is an entry in the list of what is done with nodes; `find_within_range_iterative` is a stub in the
  source; copying, allocators and custom comparisons are not modelled.

DynASM:
- `DASM_DISP`, `DASM_VREG`, `DASM_MARK`, `DASM_SETLABEL`, `DASM_EXTERN` and `DASM_REL_A`; other architectures.
- Growing of buffers, and integers of 32 bits: offsets are unbounded.
- The build without `DASM_CHECKS` (LuaJIT's own generator is built with them), and `dasm_growpc` after set-up.
- Put: asks that no check has failed before; the source goes on writing over what the failed call left behind.
- Link: asks for a first word in section 0 if a reference waits for a local label, since the source reads it then.
- BuildCode: the calls of a backend are given as a sequence; names of symbols and their sorted table, relocations.

LuaJIT:
- The test of characters by locale is an abstract predicate; `string.format`, `gsub`, `gmatch` and metamethods.
- `(l + u) / 2` in `auxsort` does not overflow, since tables are shorter; comparison functions that throw errors or
  write to the table.
- Of the side trace, spill slots, snapshots and the IR of renames; no two instructions inherit the same parent
  register.
- `luaL_ref` with strings that look like numbers in the table.

json_spirit:
- Real numbers: the model's reader stops at a numeral with a point or an exponent. `setprecision(16)` does not
  round-trip.
- Wide strings, objects as maps, streams, error positions.
- The internals of Boost Spirit: numbers and strings are matched by functions; the escapes `\x` and octal ones are
  not checked for their digits when a string is scanned. Pointers are paths, which do not become stale when a vector
  moves; that no kept pointer could is part of the invariant.
