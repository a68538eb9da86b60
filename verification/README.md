# Verified model of the kernel's heap, device-tree, divider and printk cores

The repository is a small kernel for RISC-V and ARM. This project models the parts of it
whose correctness does not show from one function body:

* the **boundary-tag heap** of `mm/simple_mm.c`: size and flag words, footers, the
  PREV_FREE bits, forward and backward coalescing, the intrusive circular free list;
* the **flattened device tree** engine in `lib/libfdt`, format version 17, with all
  run-time checks on: tag walker, check walk, sequential writer, in-place NOP
  deletion, read-write splicing, property and path lookup, overlay renumbering;
* the **64-bit shift-subtract divider** of `lib/mylib/math/helper.c`;
* the **number engine of printk** in `kernel/printk.c`.

Code that changes memory step by step is a class or a method over an array
(`Allocator`, `Writer`, `RwTree`, `Memmove`, `FdtNopNode`, `FdtGetPath`, `RenumberOverlay`, `FillDigits`);
each is proved against functions on values, and what the code is for is proved about
those.

| files | content |
|---|---|
| `SizeFlag`, `FreeList`, `HeapModel` | header words, the linked list in memory, the heap invariant |
| `HeapSteps`, `HeapOps`, `HeapGlue`, `HeapFields` | the stores of each operation, and that they keep the invariant |
| `HeapRuns` | what holds after any sequence of calls |
| `SimpleMm`, `MmTests` | the allocator as an object; the boot-time stress test as its client |
| `Bytes`, `MemOps` | big-endian words, overwriting; memcpy, memset, memmove |
| `FdtTags`, `FdtStrings`, `FdtStream` | tokens, the strings block, call streams and trees |
| `FdtSw`, `FdtWriter`, `FdtRoundTrip`, `FdtResize` | the sequential writer and reading back what it wrote |
| `FdtWalk`, `FdtNesting`, `FdtEdit`, `FdtTrees`, `FdtWip` | node walk, check walk and what it leaves open, runs of tokens as trees, NOP deletion |
| `FdtLookup`, `FdtSearch`, `FdtPath`, `FdtPathText` | properties, subnodes, paths, and what a path text means |
| `FdtRwModel`, `FdtRw`, `FdtRwTrees`, `FdtRwNodes` | read-write editing: on bytes, properties of a tree, nodes of a tree |
| `FdtShape`, `FdtKids` | changing values in place, walking over subnodes and properties |
| `FdtOverlay`, `FdtFixups`, `FdtFixupBounds`, `FdtFixupCases`, `FdtRenumber` | overlay renumbering on trees: the steps, the fixups while they change, bounds, results |
| `FdtPhandleFits` | when the two renumbering steps succeed, and the first error |
| `FdtOverlayRun`, `FdtRefsRun`, `FdtRenumberRun` | overlay renumbering as it runs on the blob |
| `Division`, `Printk` | divider, number rendering |

## Conventions

**Heap memory.** Memory is indexed by byte address and a word lives at the entry of its
first byte. `HeapFields.FieldsApart` proves that the byte ranges of all header words,
links, footers and live payloads are pairwise disjoint, so nothing is hidden by this.
The width of a pointer is a parameter, 4 or 8; the header has 8 + 2 * width bytes.

**Device trees.** Header fields of a blob are fields of the object; the blocks are bytes.
`Run(b, toks)` says that the bytes of block `b` are the tokens `toks` and FDT_END,
`Off(toks, i)` is where token `i` starts, `NodeAt(s, toks, i, t, p)` that the tokens read,
with strings `s`, as tree `t` and that token `i` begins the node at path `p` of it.
`BlobReads(f, t)` says that the blocks of `f` read as the tree `t`; `Called(full, name)` that a node
`full` goes by `name`, the unit address left out or not.
`Rewritten(f, toks, t, g, us, u)` says that from blob `f` to blob `g` only property values
have changed: every token is at its old offset, every byte outside the structure block is
as it was, and the blob now reads as `u`.
Token padding may hold any bytes, FDT_NOP may stand anywhere.

**Folded definitions.** A predicate `P` whose definition is large is written as
`FoldedP(…, n)`, which counts `n` down to the definition, called with a number that the
verifier cannot count down by itself. `PIs` proves once that `P` is its definition. A
proof that needs to look inside `P` calls `PIs`; every other proof handles `P` as a
whole. The technique is used where the proofs above the definition become too expensive
without it.

## Model

| member | source | states |
|---|---|---|
| SizeFlag.PackReads | include/kernel/mm/simple_mm.h:13-38 | a size that is a multiple of 8 and the three flags share one word without disturbing each other |
| FreeList.AddLinks | lib/mylib/list/list.h:23-36 | list_add keeps the circle linked both ways with the new node first; only link cells change |
| FreeList.DelLinks | lib/mylib/list/list.h:43-54 | list_del keeps the other nodes linked in their order; only link cells change |
| HeapOps.NeedExact | mm/simple_mm.c:20-31 | a request that does not wrap looks for the smallest multiple of 8 that holds it plus a header |
| HeapOps.WrapExactness | mm/simple_mm.c:86 | the size comparison is the intended one for every free block if and only if rounding and header do not wrap |
| HeapOps.WrappedNeed | mm/simple_mm.c:86 | a wrapping request accepts every free block although none can hold it |
| HeapGlue.NoCorruptionInMalloc | mm/simple_mm.c:114-117 | the header behind the block that malloc takes whole still has its magic number: the corruption branch is not reached |
| SimpleMm.Allocator.Init | mm/simple_mm.c:33-71 | when it succeeds; one free block and the end header, the invariant holds, exactly when two headers fit |
| SimpleMm.Allocator.Malloc | mm/simple_mm.c:74-132 | keeps the heap invariant; NULL exactly when no free block is large enough; otherwise the first fit in list order, aligned, split off exactly when more than a header and a minimal block is left; every live payload unchanged; exact new tiling and list |
| SimpleMm.Allocator.MergeNext | mm/simple_mm.c:199-208 | forward coalescing: tiling, list and footers are those of one block, payloads unchanged |
| SimpleMm.Allocator.MergePrev | mm/simple_mm.c:134-164 | backward coalescing through the footer finds the left neighbour; neither panic branch is reached |
| SimpleMm.Allocator.Free | mm/simple_mm.c:166-213 | keeps the invariant; exact new tiling and list; exactly this pointer stops being live; other payloads unchanged |
| SimpleMm.Allocator.GetFreeMemory | mm/simple_mm.c:282-293 | the walk over the list adds up exactly the free blocks of the tiling |
| SimpleMm.Allocator.StorePayload | mm/simple_mm.c:83-132 | writing inside a live payload cannot break the heap |
| SimpleMm.Allocator.Realloc | mm/simple_mm.c:235-267 | all four cases with the new tiling and list: malloc, free, in place, move with the contents copied; other payloads kept; when it is NULL; when the payload has the requested size |
| HeapFields.FieldsApart | include/kernel/mm/simple_mm.h:44-48 | no two fields or live payloads of a well-formed heap share a byte |
| HeapRuns.EveryRun | mm/simple_mm.c:74-213 | every run of malloc and free keeps tiling and coalescing; free plus used bytes is the region |
| HeapRuns.FreeingAllRestores | init/test.c:58-105 | after any run that frees what it took, in any order, the heap is the one initial block |
| HeapRuns.FreeUndoesMalloc | mm/simple_mm.c:74-213 | free right after malloc restores the tiling exactly |
| HeapRuns.Conservation | mm/simple_mm.c:33-71 | block sizes add up to the region |
| HeapRuns.FullyCoalesced | mm/simple_mm.c:187-212 | with nothing live, coalescing leaves one block of full size |
| HeapRuns.PayloadFits | mm/simple_mm.c:74-132 | payload aligned, at least the request, at most a header and a minimal block more; which of the two lengths it has |
| HeapRuns.PayloadsDisjoint | mm/simple_mm.c:74-132 | payloads of different blocks do not overlap |
| MmTests.SwissCheese | init/test.c:58-105 | the stress test always ends with one free block, for all sizes |
| MmTests.FreeThenMalloc | mm/simple_mm.c:185 | the free list is a stack: a block just freed, not joined to the left, is what the next fitting request gets |
| MmTests.MallocTwice | mm/simple_mm.c:94-104 | the remainder of a split serves the next fitting request, right behind the first payload |
| MmTests.ReallocFallsShort | mm/simple_mm.c:253-264 | a concrete heap on which realloc to 24 bytes returns 8 bytes of payload |
| MmTests.InitTooSmall | mm/simple_mm.c:38-41 | a concrete region on which simple_init succeeds and leaves no free block |
| Division.Udivdi3 | lib/mylib/math/helper.c:4-16 | the exact quotient for every nonzero divisor, all ones for zero |
| Division.Umoddi3 | lib/mylib/math/helper.c:18-23 | the exact remainder, although product and difference wrap |
| Division.NoBitLost | lib/mylib/math/helper.c:9 | the left shift of the remainder loses no bit, also for divisors above 2^63 |
| Printk.FillDigits | kernel/printk.c:162-172 | the 64-character buffer is never overrun and holds the digits backwards |
| Printk.PrintNumber | kernel/printk.c:141-220 | the output of the statements is the rendering defined on values, and is blanks, sign, zeros, digits, blanks with every run where the flags, width and precision put it |
| Printk.RenderLength | kernel/printk.c:185-198 | the text is as long as the larger of width and sign, precision and digits |
| Printk.RenderLaid | kernel/printk.c:181-219 | sign, zeros and digits stand together; blanks on the left, with `-` on the right; with `0` alone zeros instead; exact length |
| Printk.LaidOnce | kernel/printk.c:181-219 | these rules leave one text |
| Printk.LastIsDigit | kernel/printk.c:208-219 | without `-` the last character is the last digit |
| Printk.FirstIsShown | kernel/printk.c:181-207 | with `-` the text starts with sign and digit |
| Printk.ZeroPadded | kernel/printk.c:195-198 | with `0`, no `-` and no precision: sign, zeros, digits and nothing else, up to the width |
| Printk.WidthPads | kernel/printk.c:185-193 | there is no padding blank unless the width asks for it |
| Printk.PrecisionShown | kernel/printk.c:181-183 | at least `precision` digits in a row, ending with those of the number |
| Printk.PaddedNumbers | kernel/printk.c:181-219 | 0xab in %08x is 000000ab; 42 in %5d and %-5d |
| Printk.DigitsForm | kernel/printk.c:162-172 | digits are of the base and case asked for, and the first is 0 only for the single digit of zero |
| Printk.RenderReads | kernel/printk.c:141-220 | reading the printed text gives the number back, for all flags, widths and precisions |
| Printk.MissingHexPrefix | kernel/printk.c:174-178 | `#` never yields 0x, where ISO C asks for it |
| Printk.ZeroAtPrecisionZero | kernel/printk.c:162-164 | zero with precision 0 prints a digit, where ISO C asks for none |
| Printk.IsoWell | kernel/printk.c:141-220 | the text of ISO C, with digits and padding of its own definition, obeys the same rules outside the two cases |
| Printk.IsoExactly | kernel/printk.c:141-220 | the output is the one of ISO C, defined apart from the code, if and only if neither case applies |
| MemOps.Memcpy | lib/mylib/string/string.c:5-10 | the destination has the source bytes, nothing else changes |
| MemOps.Memset | lib/mylib/string/string.c:12-16 | the region is filled, nothing else changes |
| MemOps.Memmove | lib/mylib/string/string.c:18-28 | overlapping regions in either direction are copied as they were |
| FdtTags.FdtNextTag | lib/libfdt/fdt.c:170-229 | the byte loop computes the next tag and offset, errors included |
| FdtTags.NextTagHolds | lib/libfdt/fdt.c:170-229 | where a token stands, the walker returns its tag and steps over it |
| FdtTags.TokenHolds | lib/libfdt/fdt.c:170-229 | conversely, a step that ends inside the block has passed a token |
| FdtStrings.FindString | lib/libfdt/fdt.c:323-333 | the first occurrence, or there is none |
| FdtStrings.GetNamed | lib/libfdt/fdt_ro.c:34-98 | a name that stands at an offset is what is read there |
| FdtStream.ReadTokens | lib/libfdt/fdt.c:170-229 | walking laid-out tokens gives back the calls that wrote them |
| FdtStream.AllRelocate | lib/libfdt/fdt_sw.c:360-374 | relocated name offsets name the same strings from the start of the table |
| FdtStream.RebuildFlatten | lib/libfdt/fdt_sw.c:219-335 | the tree is determined by the calls that wrote it |
| FdtWriter.Writer.Create | lib/libfdt/fdt_sw.c:109-141 | error cases in order; else an empty tree in the reservation state |
| FdtWriter.Writer.AddReserve | lib/libfdt/fdt_sw.c:188-206 | error cases; else 16 bytes appended and nothing else changed |
| FdtWriter.Writer.FinishReservemap | lib/libfdt/fdt_sw.c:208-217 | error cases; else the zero entry is written and the structure state entered |
| FdtWriter.Writer.GrabSpace | lib/libfdt/fdt_sw.c:94-107 | grants exactly what fits between the two blocks, 32-bit wrap-around included |
| FdtWriter.Writer.BeginNode | lib/libfdt/fdt_sw.c:219-234 | NOSPACE exactly when the token does not fit, then nothing changes; else one more open node |
| FdtWriter.Writer.CloseNode | lib/libfdt/fdt_sw.c:236-248 | the same for the end of a node |
| FdtWriter.Writer.AddString | lib/libfdt/fdt_sw.c:250-265 | the string goes in front of the table, exactly if it fits |
| FdtWriter.Writer.FindAddString | lib/libfdt/fdt_sw.c:276-291 | a name already in the table, also as the tail of another, is shared |
| FdtWriter.Writer.AddProperty | lib/libfdt/fdt_sw.c:293-335 | succeeds exactly if token and new name fit together; a failed call takes the new string back |
| FdtWriter.Writer.RelocateNames | lib/libfdt/fdt_sw.c:360-374 | every name offset is relocated, and nothing outside the block changes |
| FdtWriter.Writer.Finish | lib/libfdt/fdt_sw.c:337-384 | blocks are adjacent, and the walker reads exactly the successful calls in order |
| FdtWriter.RoomTestExact | lib/libfdt/fdt_sw.c:257-260 | the unsigned room test is right if and only if the subtraction does not wrap into the free space |
| FdtWriter.RoomTestWraps | lib/libfdt/fdt_sw.c:257-260 | a concrete name that passes the test without fitting |
| FdtRoundTrip.WriteBlob | lib/libfdt/fdt_sw.c:109-384 | exact verdict: header, structure block and the strings that are not shared must fit; then the blob reads back as the same tree |
| FdtRoundTrip.WriteShort | lib/libfdt/fdt_sw.c:109-384 | the same for every tree whose property names are shorter than 64 bytes |
| FdtRoundTrip.ShortSafe | lib/libfdt/fdt_sw.c:257-260 | such names never meet the wrapping case of the room test |
| FdtRoundTrip.FewSafe | lib/libfdt/fdt_sw.c:257-260 | nor do names that fit the buffer together |
| FdtResize.Resize | lib/libfdt/fdt_sw.c:148-186 | each error and when; a tree being written moves exactly if both blocks fit the new size, unchanged for every overlap of the two buffers, in its state, with its reservation entries, flags and the new room |
| FdtResize.CarriedSurvives | lib/libfdt/fdt_sw.c:168-183 | the two copies and the two header fields are enough for that |
| FdtResize.DraftSurvives | lib/libfdt/fdt_sw.c:148-186 | the calls that wrote it are the same ones, so it can be continued and finished |
| FdtWalk.FdtNextNode | lib/libfdt/fdt.c:255-293 | the loop computes the next node, depth and errors |
| FdtWalk.WalkScans | lib/libfdt/fdt.c:255-293 | on a block of tokens the walk stops at the next begin token, with the depth of the nesting |
| FdtWalk.VisitNodes | lib/libfdt/fdt.c:255-293 | repeated calls visit every node once, offsets strictly increasing, each at its depth, and end with NOTFOUND |
| FdtWalk.FdtCheckWalk | lib/libfdt/fdt_check.c:38-95 | the loop computes the verdict of the check walk, errors included |
| FdtWalk.CheckExact | lib/libfdt/fdt_check.c:38-95 | it passes if and only if the block is tokens that nest, with one nameless root and readable property names |
| FdtWalk.OneRoot | lib/libfdt/fdt_check.c:45-83 | a block that passes has at most one top-level node |
| FdtWalk.CheckAndVisit | lib/libfdt/fdt_check.c:38-95 | after a passed check the node walk cannot fail half way |
| FdtNesting.TreeExactly | lib/libfdt/fdt_check.c:38-95 | a block that passes reads as a tree if and only if it has a node and every node has its properties before its subnodes |
| FdtNesting.RootNameless | lib/libfdt/fdt_check.c:63-74 | the root of that tree has no name |
| FdtNesting.CheckedIsTree | lib/libfdt/fdt_check.c:38-95 | a passed check gives a run of tokens to which the above applies |
| FdtEdit.FdtNodeEnd | lib/libfdt/fdt_wip.c:73-81 | the loop computes the end offset or the error |
| FdtEdit.NodeEndFound | lib/libfdt/fdt_wip.c:73-81 | for a node of a token block it is the token behind the matching end |
| FdtEdit.SpliceRun | lib/libfdt/fdt_rw.c:59-73 | replacing the bytes of a run of tokens replaces those tokens |
| FdtTrees.NodeSegment | lib/libfdt/fdt_wip.c:73-81 | what lies between a node's begin and its end reads as exactly its subtree |
| FdtTrees.AroundNode | lib/libfdt/fdt_wip.c:83-94 | a tree is what is before a node, the node, and what is after it |
| FdtTrees.WithoutNode | lib/libfdt/fdt_wip.c:83-94 | what is before and after a node is the tree without it |
| FdtWip.NopRegion | lib/libfdt/fdt_wip.c:51-57 | whole words are overwritten with NOP, nothing else |
| FdtWip.FdtNopNode | lib/libfdt/fdt_wip.c:83-94 | error unchanged, else exactly the node's words are NOPs |
| FdtWip.NopNodeTree | lib/libfdt/fdt_wip.c:83-94 | the blob then reads as the tree without that node |
| FdtWip.NopNodeRebuilds | lib/libfdt/fdt_wip.c:83-94 | nesting what is read gives exactly that tree |
| FdtWip.NopKeepsOthers | lib/libfdt/fdt_wip.c:83-94 | all other tokens keep offset and bytes |
| FdtLookup.FdtGetProp | lib/libfdt/fdt_ro.c:399-427 | the loop computes the offset of the property or the error |
| FdtLookup.GetPropFinds | lib/libfdt/fdt_ro.c:203-225 | it is the first property of that node with that name, NOPs skipped, else NOTFOUND |
| FdtLookup.FdtSubnode | lib/libfdt/fdt_ro.c:227-244 | the loop computes the offset of the subnode or the error |
| FdtSearch.SubnodeTree | lib/libfdt/fdt_ro.c:227-244 | in the tree it is the first child whose name matches, unit address optional, else NOTFOUND |
| FdtSearch.MatchIsCalled | lib/libfdt/fdt_ro.c:13-32 | a name matches exactly the node of that name and, if it has no unit address, the same name with any |
| FdtSearch.FindSubnode | lib/libfdt/fdt_ro.c:227-244 | the offset of the first child so called, NOTFOUND exactly when there is none |
| FdtSearch.MemoryFound | lib/libfdt/fdt_ro.c:28-29 | memory finds memory@80000000, memory@0 does not |
| FdtSearch.DescendFinds | lib/libfdt/fdt_ro.c:272-296 | going down by unambiguous names ends at that node |
| FdtPath.FdtPathOffset | lib/libfdt/fdt_ro.c:252-298 | the text loop descends by the components, repeated slashes skipped; the empty path is a bad path |
| FdtPath.PathFinds | lib/libfdt/fdt_ro.c:252-298 | the path text of a node leads to the offset of that node |
| FdtPathText.SpreadBack | lib/libfdt/fdt_ro.c:272-296 | the components of a text are the names in it, however many slashes stand around them |
| FdtPathText.EveryText | lib/libfdt/fdt_ro.c:272-296 | every text is some names with slashes around them |
| FdtPathText.DescendResolves | lib/libfdt/fdt_ro.c:272-296 | the descent ends at the node that the names lead to, each to the first child so called, or finds nothing exactly if there is none |
| FdtPathText.FindPath | lib/libfdt/fdt_ro.c:252-298 | for any path text: the offset of that node, else NOTFOUND |
| FdtPath.FdtGetPath | lib/libfdt/fdt_ro.c:573-623 | the names of all open nodes are in the buffer, cut back and extended as the walk goes; NOSPACE exactly when they do not fit |
| FdtPath.GetPathOf | lib/libfdt/fdt_ro.c:573-623 | for a node of a tree: 0 exactly if its path and a NUL fit, and then they are in the buffer |
| FdtPath.PathRoundTrip | lib/libfdt/fdt_ro.c:573-623 | fdt_path_offset of what fdt_get_path wrote is the node |
| FdtRw.RwTree.Splice | lib/libfdt/fdt_rw.c:59-73 | error cases; else all data behind the point has moved by the difference |
| FdtRw.RwTree.SpliceStruct | lib/libfdt/fdt_rw.c:88-100 | the same with the block's size and the strings offset adjusted |
| FdtRw.RwTree.FindAddString | lib/libfdt/fdt_rw.c:132-160 | a name that is there is shared, a new one is appended exactly if it fits |
| FdtRw.RwTree.DelNode | lib/libfdt/fdt_rw.c:403-415 | errors leave the blob alone, else exactly the node's bytes are gone |
| FdtRw.FdtSkipProps | lib/libfdt/fdt_rw.c:377-380 | the loop over tags stops behind the properties of a node |
| FdtRw.RwTree.AddSubnode | lib/libfdt/fdt_rw.c:354-396 | exact verdict on any blob; else an empty node stands at the returned offset |
| FdtRw.RwTree.AddProp | lib/libfdt/fdt_rw.c:220-251 | the error of a bad offset; else succeeds exactly if token and new name fit; a failed call restores the strings |
| FdtRw.RwTree.SetProp | lib/libfdt/fdt_rw.c:276-309 | resized in place or added, with the verdict and the exact new blocks |
| FdtRw.AddThenDelete | lib/libfdt/fdt_rw.c:354-415 | deleting the node just added restores both blocks, their sizes and offsets |
| FdtRwTrees.DelNodeTree | lib/libfdt/fdt_rw.c:403-415 | the blob reads as the tree without the node |
| FdtRwTrees.AddSubnodeTree | lib/libfdt/fdt_rw.c:354-396 | the blob reads as the tree with an empty node as first child |
| FdtRwNodes.AddNode | lib/libfdt/fdt_rw.c:354-396 | EXISTS exactly if a child is so called, else NOSPACE exactly if the node does not fit, else the blob reads as the tree with the new first child, which is at the returned offset |
| FdtRwNodes.DeleteNode | lib/libfdt/fdt_rw.c:403-415 | deleting a node of the tree succeeds and leaves the tree without it |
| FdtRwNodes.NopNode | lib/libfdt/fdt_wip.c:83-94 | the same in place |
| FdtRwTrees.SetPropTree | lib/libfdt/fdt_rw.c:276-309 | the blob reads as the tree with the property set, or NOSPACE and both blocks are unchanged |
| FdtRwTrees.PutInLookup | lib/libfdt/fdt_rw.c:276-309 | the name then has the new value, every other name what it had |
| FdtRwTrees.SetAtOther | lib/libfdt/fdt_rw.c:276-309 | all other nodes keep name, properties and place |
| FdtRwTrees.GetPropTree | lib/libfdt/fdt_ro.c:456-472 | fdt_getprop gives the value that the tree has, or NOTFOUND |
| FdtRwTrees.SetThenGetAny | lib/libfdt/fdt_rw.c:276-309 | fdt_getprop after fdt_setprop: the new value at that node and name, the old one at every other |
| FdtRwTrees.SetThenGet | lib/libfdt/fdt_rw.c:295-309 | the two calls one after the other on one blob: NOSPACE exactly if the growth does not fit, else the new value is read |
| FdtKids.FdtFirstSubnode | lib/libfdt/fdt.c:295-304 | computes the first subnode or NOTFOUND |
| FdtKids.FdtNextSubnode | lib/libfdt/fdt.c:306-321 | the loop computes the next subnode or NOTFOUND |
| FdtKids.FirstChildTree | lib/libfdt/fdt.c:295-304 | on the blob of a tree that is the first child |
| FdtKids.NextChildTree | lib/libfdt/fdt.c:306-321 | ... and the next child, NOTFOUND behind the last |
| FdtKids.FirstPropTree | lib/libfdt/fdt_ro.c:343-351 | the first property of the node, if it has any |
| FdtKids.NextPropTree | lib/libfdt/fdt_ro.c:353-359 | the next one, until the last |
| FdtKids.BeginIsNode | lib/libfdt/fdt.c:255-293 | every begin tag met is a node of the tree |
| FdtKids.OneNode | lib/libfdt/fdt.c:255-293 | ... and of one only |
| FdtShape.NodeStaysPut | lib/libfdt/fdt_overlay.c:118 | a change of values moves no node |
| FdtShape.ValueSet | lib/libfdt/fdt_overlay.c:118 | another value of the same length in a token is that value in the tree |
| FdtOverlay.MaxIsBound | lib/libfdt/fdt_ro.c:114-140 | no phandle of a tree is above its maximum |
| FdtOverlay.MaxAttained | lib/libfdt/fdt_ro.c:114-140 | a nonzero maximum is the phandle of a node |
| FdtOverlay.AdjustAt | lib/libfdt/fdt_overlay.c:137-158 | after the phandle step every node has its phandles adjusted and its name and place |
| FdtPhandleFits.AdjustExactly | lib/libfdt/fdt_overlay.c:101-158 | the phandle step succeeds if and only if every phandle property of every node is a word that stays legal |
| FdtPhandleFits.FirstOffender | lib/libfdt/fdt_overlay.c:101-158 | otherwise the error is that of the first node, in the order of the blob, that has one |
| FdtPhandleFits.RenumbersExactly | lib/libfdt/fdt_overlay.c:1049-1062 | with clean fixups both steps succeed, inside the properties, if and only if all phandles fit and all slots are inside |
| FdtOverlay.ShiftAt | lib/libfdt/fdt_overlay.c:201-269 | what the fixups received ask for: exactly the listed words grow by delta |
| FdtFixups.FixupsRead | lib/libfdt/fdt_overlay.c:201-306 | reading the fixups while they are followed does the same, when none leads into the fixups |
| FdtFixupBounds.InsideExactly | lib/libfdt/fdt_overlay.c:201-306 | the reference step succeeds if and only if every fixup is for a property that is there and every slot is inside it; with the former it strays if and only if a slot is not |
| FdtFixupCases.FarSlotStrays | lib/libfdt/fdt_overlay.c:235-245 | a concrete overlay whose slot is outside its property |
| FdtFixupCases.NestedStrays | lib/libfdt/fdt_overlay.c:248-266 | a concrete overlay with clean fixups and all slots inside, of which one is for the fixups: a store leaves its property |
| FdtFixupCases.LateHarmless | lib/libfdt/fdt_overlay.c:248-266 | the same fixups in the other order do what they ask for |
| FdtRenumber.FixupsAdjusted | lib/libfdt/fdt_overlay.c:137-158 | the phandle step leaves clean fixups clean |
| FdtRenumber.NodesKept | lib/libfdt/fdt_overlay.c:137-306 | no node is lost by the two steps |
| FdtRenumber.PhandleRaised | lib/libfdt/fdt_overlay.c:101-120 | after both steps a nonzero phandle is larger by exactly delta and still legal |
| FdtRenumber.PhandleAbove | lib/libfdt/fdt_overlay.c:101-158 | it is above every phandle of the base tree |
| FdtRenumber.PhandlesDistinct | lib/libfdt/fdt_overlay.c:101-158 | two nodes have equal phandles exactly if they had before |
| FdtRenumber.ReferencesKept | lib/libfdt/fdt_overlay.c:201-306 | a listed reference names a node exactly if it did before |
| FdtRenumber.PhandleAfter | lib/libfdt/fdt_overlay.c:101-158 | the phandle of every node after both steps, under either property name |
| FdtRenumber.AboveExactly | lib/libfdt/fdt_overlay.c:101-120 | a node ends above delta exactly if its phandle was not 0 |
| FdtRenumber.CollidesExactly | lib/libfdt/fdt_overlay.c:1049-1057 | a node ends with the phandle of a node of the base exactly if it has a phandle property, and that is 0 |
| FdtRenumber.ZeroCollides | lib/libfdt/fdt_overlay.c:101-120 | a concrete base and overlay that collide, under either property name |
| FdtOverlayRun.WordStored | lib/libfdt/fdt_overlay.c:235-245 | storing one word of a value changes that word of that property and no other token |
| FdtOverlayRun.StoreWord | lib/libfdt/fdt_overlay.c:118 | the same in place on the blob, and for its tree |
| FdtOverlayRun.AddPhandleOffset | lib/libfdt/fdt_overlay.c:101-120 | each result and when: not found, BADPHANDLE for other than 4 bytes, NOPHANDLES above the largest phandle, which change nothing; else the property is larger by delta |
| FdtOverlayRun.AdjustNode | lib/libfdt/fdt_overlay.c:137-158 | the recursion over the blob: 0 exactly if all phandles fit, and then the blob reads as the adjusted tree |
| FdtRefsRun.FollowFixup | lib/libfdt/fdt_overlay.c:218-245 | one fixup: exact verdict; on 0 the words it lists have grown in the blob |
| FdtRefsRun.FollowNode | lib/libfdt/fdt_overlay.c:201-269 | the recursion over node and fixup node, both in the blob that is being changed |
| FdtRenumberRun.FdtGetPhandle | lib/libfdt/fdt_ro.c:513-528 | the 4-byte value of phandle, else of linux,phandle, else 0 |
| FdtRenumberRun.FdtFindMaxPhandle | lib/libfdt/fdt_ro.c:114-140 | the loop over all nodes of the blob finds the maximum of the tree |
| FdtRenumberRun.AdjustLocalPhandles | lib/libfdt/fdt_overlay.c:174-180 | the whole overlay: 0 exactly if all phandles fit, every token at its old offset |
| FdtRenumberRun.UpdateLocalReferences | lib/libfdt/fdt_overlay.c:288-306 | the same for the references; no fixup node is no error |
| FdtRenumberRun.RenumberOverlay | lib/libfdt/fdt_overlay.c:1049-1062 | the three steps on two blobs: the resulting tree, every token at its old offset; with clean fixups 0 and inside the properties exactly if all phandles fit and all slots are inside |
| FdtRenumberRun.ZeroRenumbers | lib/libfdt/fdt_overlay.c:1049-1062 | with clean fixups a result of 0 means that all of the above holds of that tree |

## Findings

Properties that a reader would expect and that the code does not have. Each has an input
and the exact condition.

* **Short heap region.** `simple_init` tests for one header but writes two. With less, the
  end header is written over the header of the first block. `Allocator.Init` states that
  the heap is well formed exactly if two headers fit; `InitTooSmall` is a concrete region.
* **Wrapping requests.** Near the top of `size_t` the rounded request plus a header wraps
  and any free block is accepted (`WrappedNeed`). `WrapExactness`: the test is right if and
  only if the request is at most the modulus minus a header minus 8.
* **Realloc in place.** The new size is compared with the old block size, header included.
  `Realloc` states that the payload has the requested size if and only if the request is
  not within one header below the block size; `ReallocFallsShort` is a concrete heap.
* **fdt_add_string_.** The room test subtracts unsigned numbers; a name longer than what is
  left of the buffer can pass it (`RoomTestWraps`). `RoomTestExact` gives the condition.
  Names below 64 bytes always meet it, because the structure block starts at 64 at least.
* **printk.** The `#` flag never prints 0x, because the number has been divided down to 0
  when it is tested, and zero with precision 0 prints a digit. `IsoExactly`: the output is
  the one of ISO C if and only if neither applies.
* **Overlay phandle 0.** A phandle of 0 in an overlay, under either property name, is
  raised to the largest phandle of the base and collides with a node of it
  (`ZeroCollides`). `CollidesExactly`: with a base that has phandles, a node collides if and
  only if it has a phandle property and that is 0.
* **Overlay fixup offsets.** The offsets under `__local_fixups__` are not compared with the
  length of the property (`FarSlotStrays`). `InsideExactly`: for fixups that lead nowhere
  into the fixups, every store stays inside if and only if every offset listed leaves four
  bytes of its property.
* **Fixups of fixups.** The fixups are read from the overlay that is being changed. A fixup
  whose path leads into `__local_fixups__` changes another before that is read; slots that
  were all inside then lead outside (`NestedStrays`). `FixupsRead`: when no path does so,
  the step does what the fixups received ask for. The other direction does not hold: a
  fixup may be changed after it has been read (`LateHarmless`).

## Left out

- SimpleMm.Allocator.Malloc: stated for requests that do not wrap; what the code does with the others is `HeapOps.WrappedNeed`.
- SimpleMm.Allocator.Free: stated for live pointers; for any other pointer the source stops the kernel, which is not modelled.
- FdtWriter.Writer.AddString: stated for names that the room test treats right; `FdtWriter.RoomTestExact` says which those are.
- FdtWriter.Writer.FindAddString: the same, unless the name is shared.
- FdtWriter.Writer.AddProperty: the same as FindAddString.
- FdtRoundTrip.WriteBlob: stated for names that the room test treats right, call by call; `ShortSafe` and `FewSafe` give two classes of trees for which it does.
- FdtPath.FdtPathOffset: paths that start with an alias are not modelled.
- FdtPath.FdtGetPath: stated for offsets of nodes; the errors for other offsets are not covered.
- FdtRw.RwTree.SetProp: stated for properties whose padded value lies inside the block, which every checked blob has.
- FdtRenumber.ReferencesKept: stated when both steps return 0, for fixups that list every slot once, no phandle property and nothing of their own.
- FdtRefsRun.FollowNode: stops with `stray` at the first store that would leave its property; what the code destroys from there on is not modelled.
- FdtRenumberRun.RenumberOverlay: stated for blobs that read as trees and an overlay whose root is the first token; for other blobs the walks return their errors, which are those of the reading functions.
- FdtRw.RwTree.Splice: stated for new lengths that are not negative, which is all that its callers pass.
- FdtRw.RwTree.SpliceStruct: stated for ranges inside the structure block, for the same reason.
- SimpleMm.Allocator.Init: stated for base addresses that are a multiple of 8 and regions below 4 GiB, the width of the size field.
- simple_calloc, kmalloc wrappers and the poison fill of CONFIG_MM_DEBUG: they would only add easy members; the poisoned bit itself is carried.
- fdt_check_full: only its walk; fdt_check_header and fdt_num_mem_rsv, which it calls first, are not modelled.
- Header fields of a blob are not bytes of the buffer, and format versions before 17 and the unchecked build (FDT_ASSUME_MASK) are not modelled.
- Contents of the memory reservation map beyond the bytes the writer puts there.
- fdt_open_into, fdt_pack, fdt_appendprop, fdt_delprop, fdt_set_name, fdt_setprop_inplace.
- Overlay application beyond renumbering: fixup of external phandles, conflicting phandles, merging, symbols.
- printk: the directive parser, its variable arguments and the console; negation of the smallest long long wraps.
- Drivers, device binding, trap handling, scheduling and the architecture directories.
