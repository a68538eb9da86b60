/** Each heap operation as one lemma: from the invariant before to the
    invariant after, for exactly the memory the stores leave behind. */
module HeapGlue {
  import opened SizeFlag
  import opened FreeList
  import opened HeapModel
  import opened HeapSteps
  import opened HeapOps
  import opened HeapRuns

  /** Block i is free, at position k of the list, and large enough to hand out. */
  ghost predicate Candidate(h: Heap, i: int, k: int) {
    && Inv(h) && Placed(h, i) && h.blocks[i].free
    && 0 <= k < |h.nodes| && h.nodes[k] == h.blocks[i].addr + 8
    && h.blocks[i].size >= HeadSize(h.ptr) + MIN_BLOCK_SIZE
  }

  /** Marking used and unlinking can be carried out. */
  lemma TakeReach(h: Heap, i: int, k: int)
    requires Candidate(h, i, k)
    ensures var a := h.blocks[i].addr;
      && 0 <= a && a + 8 + h.ptr < |h.mem|
      && (var m1 := h.mem[a + 4 := ClrFree(h.mem[a + 4])];
          NodeFits(m1, h.ptr, a + 8) && NodeFits(m1, h.ptr, m1[a + 8]) && NodeFits(m1, h.ptr, m1[a + 8 + h.ptr]))
  {
    HeaderReads(h, i);
    OnList(h, i, k);
  }

  ghost predicate TakenOff(h: Heap, i: int, k: int, m2: Mem)
    requires Candidate(h, i, k)
  {
    TakeReach(h, i, k);
    var a := h.blocks[i].addr;
    m2 == ListDel(h.mem[a + 4 := ClrFree(h.mem[a + 4])], h.ptr, a + 8)
  }

  /** What marking used and unlinking leave behind. */
  lemma TakenOffEffect(h: Heap, i: int, k: int, m2: Mem)
    requires Candidate(h, i, k) && TakenOff(h, i, k, m2)
    ensures |m2| == |h.mem| && Linked(m2, h.ptr, h.head, Without(h.nodes, k))
    ensures Frame(h, h.blocks[i].addr + 4, h.blocks[i].addr + 5, m2)
    ensures HeaderAt(m2, h.blocks[i].(free := false), PrevFree(h.blocks, i))
  {
    Unfold(h);
    TakeReach(h, i, k);
    HeaderReads(h, i);
    UnlinkEffect(h, i, k, PrevFree(h.blocks, i), m2);
  }

  /** The header after the block still carries the magic number, so the
      corruption branch of malloc (mm/simple_mm.c:115-117) is not taken. */
  lemma NoCorruptionInMalloc(h: Heap, i: int, k: int, m2: Mem)
    requires Candidate(h, i, k) && TakenOff(h, i, k, m2)
    ensures var s := h.blocks[i].addr + h.blocks[i].size; 0 <= s && s + 4 < |m2| && m2[s] == MAGIC
  {
    var a := h.blocks[i].addr;
    HeaderReads(h, i);
    TakenOffEffect(h, i, k, m2);
    NextHeader(h, i, a + 4, a + 5, m2);
  }

  lemma TakeWholeDone(h: Heap, i: int, k: int, m2: Mem, m3: Mem)
    requires Candidate(h, i, k) && TakenOff(h, i, k, m2)
    requires var x := h.blocks[i].addr + h.blocks[i].size + 4; 0 <= x < |m2| && m3 == m2[x := ClrPrevFree(m2[x])]
    ensures Inv(Heap(h.ptr, h.head, h.base, h.end, m3, Replace(h.blocks, i, i + 1, [h.blocks[i].(free := false)]),
      Without(h.nodes, k)))
    ensures PayloadsKept(h, m3, i)
  {
    var b := h.blocks[i];
    TakenOffEffect(h, i, k, m2);
    TakeWholeSound(h, i, k, m2,
      Heap(h.ptr, h.head, h.base, h.end, m3, Replace(h.blocks, i, i + 1, [b.(free := false)]), Without(h.nodes, k)));
    ReplaceCoalesced(h.blocks, i, i + 1, [b.(free := false)]);
    FrameKeepsPayloads(h, i, i + 1, b.addr + b.size + 8, m3, i);
  }

  // ------------------------------------------------------------ the split

  /** The remainder has been built and listed (mm/simple_mm.c:97-107). */
  ghost predicate AddedRest(h: Heap, i: int, need: int, m2: Mem, m3: Mem, m4: Mem) {
    && 0 <= i < |h.blocks|
    && (var b := h.blocks[i];
        && |m2| == |h.mem| == |m3| && 0 <= b.addr && b.addr + b.size + 8 <= |h.mem| && 0 <= need && need + 8 <= b.size
        && m3 == BuildHeader(m2, b.addr + need, b.size - need)
        && NodeFits(m3, h.ptr, b.addr + need + 8) && NodeFits(m3, h.ptr, h.head)
        && NodeFits(m3, h.ptr, m3[h.head + h.ptr])
        && m4 == ListAdd(m3, h.ptr, b.addr + need + 8, h.head))
  }

  ghost predicate FoldedAddedRest(h: Heap, i: int, need: int, m2: Mem, m3: Mem, m4: Mem, n: nat) {
    if n == 0 then AddedRest(h, i, need, m2, m3, m4) else FoldedAddedRest(h, i, need, m2, m3, m4, n - 1)
  }

  lemma {:induction false} FoldedAddedRestIs(h: Heap, i: int, need: int, m2: Mem, m3: Mem, m4: Mem, n: nat)
    ensures FoldedAddedRest(h, i, need, m2, m3, m4, n) <==> AddedRest(h, i, need, m2, m3, m4)
  {
    if n > 0 { FoldedAddedRestIs(h, i, need, m2, m3, m4, n - 1); }
  }

  /** Memory after the split, store by store (mm/simple_mm.c:97-111). Folded: the
      stores are looked into by the lemmas of this module only. */
  ghost predicate SplitStores(h: Heap, i: int, k: int, need: int, m2: Mem, m3: Mem, m4: Mem, m5: Mem)
    requires CanSplit(h, i, k, need)
  {
    && FoldedAddedRest(h, i, need, m2, m3, m4, |m2| + 4)
    && 0 <= h.blocks[i].addr + 4 < |m4|
    && m5 == m4[h.blocks[i].addr + 4 := ClrFree(ExtractSize(need) + ExtractFlag(m4[h.blocks[i].addr + 4]))]
  }

  lemma RestAdded(h: Heap, i: int, need: int, m2: Mem, m3: Mem, m4: Mem)
    requires 0 <= i < |h.blocks| && |m2| == |h.mem|
    requires var b := h.blocks[i]; 0 <= b.addr && b.addr + b.size + 8 <= |h.mem| && 0 <= need && need + 8 <= b.size
    requires m3 == BuildHeader(m2, h.blocks[i].addr + need, h.blocks[i].size - need)
    requires NodeFits(m3, h.ptr, h.blocks[i].addr + need + 8) && NodeFits(m3, h.ptr, h.head)
    requires NodeFits(m3, h.ptr, m3[h.head + h.ptr])
    requires m4 == ListAdd(m3, h.ptr, h.blocks[i].addr + need + 8, h.head)
    ensures FoldedAddedRest(h, i, need, m2, m3, m4, |m2| + 4)
  {
    FoldedAddedRestIs(h, i, need, m2, m3, m4, |m2| + 4);
  }

  lemma SplitRoom(h: Heap, i: int, k: int, need: int)
    requires Candidate(h, i, k) && CanSplit(h, i, k, need)
    ensures var b := h.blocks[i]; 0 <= b.addr && b.addr + b.size + 8 <= |h.mem| && 0 < need && need + 12 <= b.size
  {
    HeaderReads(h, i);
  }

  /** The remainder can be listed. */
  lemma SplitReach(h: Heap, i: int, k: int, need: int, m2: Mem, m3: Mem)
    requires Candidate(h, i, k) && CanSplit(h, i, k, need) && TakenOff(h, i, k, m2)
    requires var b := h.blocks[i];
      && 0 <= b.addr && b.addr + b.size + 8 <= |h.mem| && |m2| == |h.mem|
      && m3 == BuildHeader(m2, b.addr + need, b.size - need)
    ensures Linked(m3, h.ptr, h.head, Without(h.nodes, k))
    ensures var n := h.blocks[i].addr + need + 8;
      NodeFits(m3, h.ptr, n) && NodeFits(m3, h.ptr, h.head) && NodeFits(m3, h.ptr, m3[h.head + h.ptr])
  {
    HeaderReads(h, i);
    TakenOffEffect(h, i, k, m2);
    SplitLinks(h, i, k, need, m2);
    FirstNode(m3, h.ptr, h.head, Without(h.nodes, k));
  }

  /** The list and the frame through the split. */
  lemma SplitDoneLinks(h: Heap, i: int, k: int, need: int, m3: Mem, m4: Mem, m5: Mem, w: int)
    requires Candidate(h, i, k) && CanSplit(h, i, k, need) && |m3| == |h.mem|
    requires Linked(m3, h.ptr, h.head, Without(h.nodes, k))
    requires var b := h.blocks[i]; var n := b.addr + need + 8;
      && NodeFits(m3, h.ptr, n) && NodeFits(m3, h.ptr, h.head) && NodeFits(m3, h.ptr, m3[h.head + h.ptr])
      && m4 == ListAdd(m3, h.ptr, n, h.head) && 0 <= b.addr && b.addr + 4 < |m4| && m5 == m4[b.addr + 4 := w]
    ensures Linked(m5, h.ptr, h.head, [h.blocks[i].addr + need + 8] + Without(h.nodes, k))
    ensures forall x {:trigger m4[x]} ::
      0 <= x < |m4| && !LinkCell(h.ptr, h.head, [h.blocks[i].addr + need + 8] + Without(h.nodes, k), x) ==>
      m4[x] == m3[x]
  {
    var b := h.blocks[i];
    var all := [b.addr + need + 8] + Without(h.nodes, k);
    Unfold(h);
    SplitBlocks(h, i, k, need);
    HeapAdd(SplitShape(h, i, k, need), m3, b.addr + need + 8, Without(h.nodes, k));
    SplitCells(h, i, k, need, b.addr + 4);
    StoreKeepsLinks(m4, h.ptr, h.head, all, b.addr + 4, w);
  }

  /** The two new headers after the split. */
  lemma SplitDoneHeaders(h: Heap, i: int, k: int, need: int, m3: Mem, m4: Mem, m5: Mem)
    requires CanSplit(h, i, k, need) && |m4| == |m3| == |h.mem|
    requires HeaderAt(m3, h.blocks[i].(free := false), PrevFree(h.blocks, i))
    requires HeaderAt(m3, Remainder(h.blocks[i], need), false) && FooterAt(m3, Remainder(h.blocks[i], need))
    requires forall x {:trigger m4[x]} ::
      0 <= x < |m4| && !LinkCell(h.ptr, h.head, [h.blocks[i].addr + need + 8] + Without(h.nodes, k), x) ==>
      m4[x] == m3[x]
    requires var b := h.blocks[i];
      0 <= b.addr && b.addr + 4 < |m4|
      && m5 == m4[b.addr + 4 := ClrFree(ExtractSize(need) + ExtractFlag(m4[b.addr + 4]))]
    ensures HeaderAt(m5, Used(h.blocks[i], need), PrevFree(h.blocks, i))
    ensures HeaderAt(m5, Remainder(h.blocks[i], need), false) && FooterAt(m5, Remainder(h.blocks[i], need))
  {
    var b := h.blocks[i];
    var pf := PrevFree(h.blocks, i);
    HeaderReads(h, i);
    SplitCells(h, i, k, need, b.addr);
    SplitCells(h, i, k, need, b.addr + 4);
    SplitCells(h, i, k, need, b.addr + need);
    SplitCells(h, i, k, need, b.addr + need + 4);
    SplitCells(h, i, k, need, b.addr + b.size - 4);
    UsedWord(b, need, pf);
  }

  lemma UsedWord(b: Block, need: int, pf: bool)
    requires b.size % 8 == 0 && need % 8 == 0
    ensures ClrFree(ExtractSize(need) + ExtractFlag(Pack(b.size, false, pf, b.poisoned)))
      == Pack(need, false, pf, b.poisoned)
  {
    PackReads(b.size, false, pf, b.poisoned);
    PackClrFree(need, false, pf, b.poisoned);
  }

  /** Header and footer of the remainder right after they are built. */
  lemma SplitBuilt(h: Heap, i: int, k: int, need: int, m2: Mem, m3: Mem)
    requires CanSplit(h, i, k, need) && |m2| == |h.mem|
    requires HeaderAt(m2, h.blocks[i].(free := false), PrevFree(h.blocks, i))
    requires var b := h.blocks[i];
      && 0 <= b.addr && b.addr + b.size + 8 <= |h.mem|
      && m3 == BuildHeader(m2, b.addr + need, b.size - need)
    ensures HeaderAt(m3, h.blocks[i].(free := false), PrevFree(h.blocks, i))
    ensures HeaderAt(m3, Remainder(h.blocks[i], need), false) && FooterAt(m3, Remainder(h.blocks[i], need))
    ensures forall x {:trigger m3[x]} ::
      0 <= x < |m3| && !(h.blocks[i].addr + need <= x < h.blocks[i].addr + h.blocks[i].size) ==> m3[x] == m2[x]
  {
    var b := h.blocks[i];
    HeaderReads(h, i);
    Multiples(b.size, need);
    BuildHeaderReads(m2, b, need, HeadSize(h.ptr));
  }

  lemma SplitDoneParts(h: Heap, i: int, k: int, need: int, m2: Mem, m3: Mem, m4: Mem, m5: Mem)
    requires Candidate(h, i, k) && CanSplit(h, i, k, need) && TakenOff(h, i, k, m2) && AddedRest(h, i, need, m2, m3, m4)
    requires m5 == m4[h.blocks[i].addr + 4 := ClrFree(ExtractSize(need) + ExtractFlag(m4[h.blocks[i].addr + 4]))]
    ensures Linked(m5, h.ptr, h.head, [h.blocks[i].addr + need + 8] + Without(h.nodes, k))
    ensures Frame(h, h.blocks[i].addr, h.blocks[i].addr + h.blocks[i].size, m5)
    ensures HeaderAt(m5, Used(h.blocks[i], need), PrevFree(h.blocks, i))
    ensures HeaderAt(m5, Remainder(h.blocks[i], need), false) && FooterAt(m5, Remainder(h.blocks[i], need))
  {
    var b := h.blocks[i];
    var w := ClrFree(ExtractSize(need) + ExtractFlag(m4[b.addr + 4]));
    SplitReach(h, i, k, need, m2, m3);
    SplitDoneLinks(h, i, k, need, m3, m4, m5, w);
    SplitDoneRest(h, i, k, need, m2, m3, m4, m5, w);
  }

  lemma SplitDoneSound(h: Heap, i: int, k: int, need: int, m2: Mem, m3: Mem, m4: Mem, m5: Mem)
    requires Candidate(h, i, k) && CanSplit(h, i, k, need) && TakenOff(h, i, k, m2) && AddedRest(h, i, need, m2, m3, m4)
    requires m5 == m4[h.blocks[i].addr + 4 := ClrFree(ExtractSize(need) + ExtractFlag(m4[h.blocks[i].addr + 4]))]
    ensures Sound(Heap(h.ptr, h.head, h.base, h.end, m5, Replace(h.blocks, i, i + 1, Halves(h.blocks[i], need)),
                       [h.blocks[i].addr + need + 8] + Without(h.nodes, k)))
    ensures Frame(h, h.blocks[i].addr, h.blocks[i].addr + h.blocks[i].size, m5)
  {
    var b := h.blocks[i];
    SplitDoneParts(h, i, k, need, m2, m3, m4, m5);
    SplitSound(h, i, k, need, m5, Heap(h.ptr, h.head, h.base, h.end, m5, Replace(h.blocks, i, i + 1, Halves(b, need)),
                                       [b.addr + need + 8] + Without(h.nodes, k)));
  }

  lemma SplitDone(h: Heap, i: int, k: int, need: int, m2: Mem, m3: Mem, m4: Mem, m5: Mem)
    requires Candidate(h, i, k) && CanSplit(h, i, k, need) && TakenOff(h, i, k, m2)
    requires SplitStores(h, i, k, need, m2, m3, m4, m5)
    ensures Inv(Heap(h.ptr, h.head, h.base, h.end, m5, Replace(h.blocks, i, i + 1, Halves(h.blocks[i], need)),
                     [h.blocks[i].addr + need + 8] + Without(h.nodes, k)))
    ensures PayloadsKept(h, m5, i)
  {
    var b := h.blocks[i];
    FoldedAddedRestIs(h, i, need, m2, m3, m4, |m2| + 4);
    SplitDoneSound(h, i, k, need, m2, m3, m4, m5);
    ReplaceCoalesced(h.blocks, i, i + 1, Halves(b, need));
    FrameKeepsPayloads(h, i, i + 1, b.addr + b.size, m5, i);
  }

  lemma SplitDoneRest(h: Heap, i: int, k: int, need: int, m2: Mem, m3: Mem, m4: Mem, m5: Mem, w: int)
    requires Candidate(h, i, k) && CanSplit(h, i, k, need) && TakenOff(h, i, k, m2)
    requires var b := h.blocks[i];
      && 0 <= b.addr && b.addr + b.size + 8 <= |h.mem| && |m2| == |h.mem| == |m4|
      && m3 == BuildHeader(m2, b.addr + need, b.size - need)
      && w == ClrFree(ExtractSize(need) + ExtractFlag(m4[b.addr + 4])) && m5 == m4[b.addr + 4 := w]
    requires forall x {:trigger m4[x]} ::
      0 <= x < |m4| && !LinkCell(h.ptr, h.head, [h.blocks[i].addr + need + 8] + Without(h.nodes, k), x) ==>
      m4[x] == m3[x]
    ensures Frame(h, h.blocks[i].addr, h.blocks[i].addr + h.blocks[i].size, m5)
    ensures HeaderAt(m5, Used(h.blocks[i], need), PrevFree(h.blocks, i))
    ensures HeaderAt(m5, Remainder(h.blocks[i], need), false) && FooterAt(m5, Remainder(h.blocks[i], need))
  {
    TakenOffEffect(h, i, k, m2);
    SplitBuilt(h, i, k, need, m2, m3);
    SplitDoneHeaders(h, i, k, need, m3, m4, m5);
    SplitFrame(h, i, k, need, m2, m3, m4, m5, w);
  }

  // ---------------------------------------------------------------- freeing

  /** The block is in use. */
  ghost predicate InUse(h: Heap, i: int) {
    Inv(h) && Placed(h, i) && !h.blocks[i].free && h.blocks[i].size >= HeadSize(h.ptr) + MIN_BLOCK_SIZE
  }

  lemma InUseAt(h: Heap, i: int)
    requires Inv(h) && 0 <= i < |h.blocks| && !h.blocks[i].free
    ensures InUse(h, i)
  {
    Unfold(h);
    PlacedAt(h, i);
  }

  /** The header of a live block says so, and so does the one after it: neither
      panic branch at the start of free is taken (mm/simple_mm.c:174-181, 189). */
  lemma FreeReads(h: Heap, i: int)
    requires InUse(h, i)
    ensures var b := h.blocks[i]; var w := h.mem[b.addr + 4];
      && h.mem[b.addr] == MAGIC && !IsFree(w) && ExtractSize(w) == b.size && ExtractSize(SetFree(w)) == b.size
      && IsPrevFree(w) == PrevFree(h.blocks, i)
  {
    var b := h.blocks[i];
    var pf := PrevFree(h.blocks, i);
    HeaderReads(h, i);
    PackReads(b.size, false, pf, b.poisoned);
    PackReads(b.size, true, pf, b.poisoned);
    PackSetFree(b.size, false, pf, b.poisoned);
  }

  /** Memory once the block is marked free and listed. */
  ghost predicate Listing(h: Heap, i: int, m2: Mem) {
    && InUse(h, i)
    && var a := h.blocks[i].addr;
    && 0 <= a && a + 4 < |h.mem|
    && var m1 := h.mem[a + 4 := SetFree(h.mem[a + 4])];
    && NodeFits(m1, h.ptr, a + 8) && NodeFits(m1, h.ptr, h.head) && NodeFits(m1, h.ptr, m1[h.head + h.ptr])
    && m2 == ListAdd(m1, h.ptr, a + 8, h.head)
  }

  lemma ListingReach(h: Heap, i: int)
    requires InUse(h, i)
    ensures var a := h.blocks[i].addr; 0 <= a && a + 4 < |h.mem|
    ensures var a := h.blocks[i].addr; var m1 := h.mem[a + 4 := SetFree(h.mem[a + 4])];
      NodeFits(m1, h.ptr, a + 8) && NodeFits(m1, h.ptr, h.head) && NodeFits(m1, h.ptr, m1[h.head + h.ptr])
  {
    HeaderReads(h, i);
    var a := h.blocks[i].addr;
    ReleaseList(h, i, h.mem[a + 4 := SetFree(h.mem[a + 4])]);
  }

  lemma ListingEffect(h: Heap, i: int, m2: Mem)
    requires Listing(h, i, m2)
    ensures Linked(m2, h.ptr, h.head, [h.blocks[i].addr + 8] + h.nodes)
    ensures Frame(h, h.blocks[i].addr, h.blocks[i].addr + h.blocks[i].size, m2)
    ensures HeaderAt(m2, Freed(h.blocks[i]), PrevFree(h.blocks, i))
    ensures HeaderAt(m2, Successor(h.blocks, h.end, i), false)
    ensures Successor(h.blocks, h.end, i).addr == h.blocks[i].addr + h.blocks[i].size
  {
    var b := h.blocks[i];
    var m1 := h.mem[b.addr + 4 := SetFree(h.mem[b.addr + 4])];
    ReleaseList(h, i, m1);
    ReleaseFrame(h, i, m1, m2);
    NextHeader(h, i, b.addr, b.addr + b.size, m2);
    HeaderReads(h, i);
  }

  /** The header after the block, as free reads it. */
  lemma FreeReadsNext(h: Heap, i: int, m2: Mem)
    requires Listing(h, i, m2)
    ensures var b := h.blocks[i]; var s := b.addr + b.size;
      && 8 <= s - 4 && s + 4 < |m2| && m2[s] == MAGIC
      && IsFree(m2[s + 4]) == FreeRight(h.blocks, i)
      && (FreeRight(h.blocks, i) ==> ExtractSize(m2[s + 4]) == h.blocks[i + 1].size)
      && ExtractSize(m2[b.addr + 4]) == b.size
  {
    var b := h.blocks[i];
    HeaderReads(h, i);
    ListingEffect(h, i, m2);
    var nb := Successor(h.blocks, h.end, i);
    PackReads(nb.size, nb.free, false, nb.poisoned);
    PackReads(b.size, true, PrevFree(h.blocks, i), b.poisoned);
  }

  lemma ReleasePlainDone(h: Heap, i: int, m2: Mem, m3: Mem)
    requires Listing(h, i, m2) && !FreeRight(h.blocks, i)
    requires var b := h.blocks[i]; var s := b.addr + b.size;
      && 0 <= s - 4 && s + 4 < |m2|
      && m3 == m2[s + 4 := SetPrevFree(m2[s + 4])][s - 4 := b.size]
    ensures Sound(Heap(h.ptr, h.head, h.base, h.end, m3, ForwardBlocks(h.blocks, i), [h.blocks[i].addr + 8] + h.nodes))
    ensures PayloadsKept(h, m3, i)
  {
    var b := h.blocks[i];
    ListingEffect(h, i, m2);
    ReleasePlainSound(h, i, m2, m3,
      Heap(h.ptr, h.head, h.base, h.end, m3, Replace(h.blocks, i, i + 1, [Freed(b)]), [b.addr + 8] + h.nodes));
    FrameKeepsPayloads(h, i, i + 1, b.addr + b.size + 8, m3, i);
  }

  ghost function Between(h: Heap, i: int, m2: Mem): Heap
    requires 0 <= i < |h.blocks|
  {
    Heap(h.ptr, h.head, h.base, h.end, m2, Replace(h.blocks, i, i + 1, [Freed(h.blocks[i])]), [h.blocks[i].addr + 8]
      + h.nodes)
  }

  /** Block i is being freed, its right neighbour is free and at position k. */
  ghost predicate MergingNext(h: Heap, i: int, k: int, m2: Mem) {
    && Listing(h, i, m2) && FreeRight(h.blocks, i) && |m2| == |h.mem|
    && h.blocks[i].addr + h.blocks[i].size == h.blocks[i + 1].addr
    && Placed(h, i + 1) && h.blocks[i + 1].size >= HeadSize(h.ptr) + MIN_BLOCK_SIZE
    && 0 <= k < |h.nodes| && h.nodes[k] == h.blocks[i + 1].addr + 8
  }

  lemma MergingNextAt(h: Heap, i: int, k: int, m2: Mem)
    requires Listing(h, i, m2) && FreeRight(h.blocks, i)
    requires 0 <= k < |h.nodes| && h.nodes[k] == h.blocks[i + 1].addr + 8
    ensures MergingNext(h, i, k, m2)
  {
    Unfold(h);
    PlacedAt(h, i + 1);
  }

  /** Size word of the joined block, then the right neighbour off the list. */
  lemma MergeNextReach(h: Heap, i: int, k: int, m2: Mem, m3: Mem, w: int)
    requires MergingNext(h, i, k, m2) && m3 == m2[h.blocks[i].addr + 4 := w]
    ensures var n := h.blocks[i + 1].addr + 8;
      NodeFits(m3, h.ptr, n) && NodeFits(m3, h.ptr, m3[n]) && NodeFits(m3, h.ptr, m3[n + h.ptr])
    ensures var m4 := ListDel(m3, h.ptr, h.blocks[i + 1].addr + 8);
      && Linked(m4, h.ptr, h.head, Without(Between(h, i, m2).nodes, k + 1))
      && m4[h.blocks[i].addr + 4] == w
      && Frame(Between(h, i, m2), h.blocks[i].addr + 4, h.blocks[i].addr + 5, m4)
  {
    var h1 := Between(h, i, m2);
    ListingEffect(h, i, m2);
    ReleasedShape(h, i, h1);
    MergeNextLinks(h, i, k, h1, w);
  }

  ghost predicate AbsorbedBody(m0: Mem, ptr: int, prev: int, a: int, total: int, m2: Mem, m3: Mem) {
    && 0 <= prev && prev + 4 < |m0|
    && (var m1 := m0[prev + 4 := total + ExtractFlag(m0[prev + 4])];
        && NodeFits(m1, ptr, a + 8) && NodeFits(m1, ptr, m1[a + 8]) && NodeFits(m1, ptr, m1[a + 8 + ptr])
        && m2 == ListDel(m1, ptr, a + 8))
    && 0 <= prev + total - 4 < |m2| && m3 == m2[prev + total - 4 := total]
  }

  ghost predicate FoldedAbsorbed(m0: Mem, ptr: int, prev: int, a: int, total: int, m2: Mem, m3: Mem, n: nat) {
    if n == 0 then AbsorbedBody(m0, ptr, prev, a, total, m2, m3)
      else FoldedAbsorbed(m0, ptr, prev, a, total, m2, m3, n - 1)
  }

  /** The stores that join two blocks (mm/simple_mm.c:201-206, 154-162), one by
      one. Folded; see `AbsorbedIs`. */
  ghost predicate Absorbed(m0: Mem, ptr: int, prev: int, a: int, total: int, m2: Mem, m3: Mem) {
    FoldedAbsorbed(m0, ptr, prev, a, total, m2, m3, |m0| + 4)
  }

  lemma {:induction false} FoldedAbsorbedIs(m0: Mem, ptr: int, prev: int, a: int, total: int, m2: Mem, m3: Mem, n: nat)
    ensures FoldedAbsorbed(m0, ptr, prev, a, total, m2, m3, n) <==> AbsorbedBody(m0, ptr, prev, a, total, m2, m3)
  {
    if n > 0 { FoldedAbsorbedIs(m0, ptr, prev, a, total, m2, m3, n - 1); }
  }

  lemma AbsorbedIs(m0: Mem, ptr: int, prev: int, a: int, total: int, m2: Mem, m3: Mem)
    ensures Absorbed(m0, ptr, prev, a, total, m2, m3) <==> AbsorbedBody(m0, ptr, prev, a, total, m2, m3)
  {
    FoldedAbsorbedIs(m0, ptr, prev, a, total, m2, m3, |m0| + 4);
  }

  lemma MergeNextDone(h: Heap, i: int, k: int, m2: Mem, m4: Mem, m5: Mem)
    requires MergingNext(h, i, k, m2)
    requires Absorbed(m2, h.ptr, h.blocks[i].addr, h.blocks[i + 1].addr, h.blocks[i].size
      + h.blocks[i + 1].size, m4, m5)
    ensures Sound(Heap(h.ptr, h.head, h.base, h.end, m5, ForwardBlocks(h.blocks, i),
      Without([h.blocks[i].addr + 8] + h.nodes, k + 1)))
    ensures PayloadsKept(h, m5, i)
  {
    var b, c := h.blocks[i], h.blocks[i + 1];
    AbsorbedIs(m2, h.ptr, b.addr, c.addr, b.size + c.size, m4, m5);
    var w := b.size + c.size + ExtractFlag(m2[b.addr + 4]);
    MergeNextReach(h, i, k, m2, m2[b.addr + 4 := w], w);
    MergeNextKeeps(h, i, k, m2, m4, m5);
  }

  lemma MergeNextKeeps(h: Heap, i: int, k: int, m2: Mem, m4: Mem, m5: Mem)
    requires MergingNext(h, i, k, m2) && |m4| == |h.mem|
    requires Linked(m4, h.ptr, h.head, Without(Between(h, i, m2).nodes, k + 1))
    requires m4[h.blocks[i].addr + 4] == h.blocks[i].size + h.blocks[i + 1].size + ExtractFlag(m2[h.blocks[i].addr + 4])
    requires Frame(Between(h, i, m2), h.blocks[i].addr + 4, h.blocks[i].addr + 5, m4)
    requires m5 == m4[h.blocks[i + 1].addr + h.blocks[i + 1].size - 4 := h.blocks[i].size + h.blocks[i + 1].size]
    ensures Sound(Heap(h.ptr, h.head, h.base, h.end, m5, ForwardBlocks(h.blocks, i),
      Without([h.blocks[i].addr + 8] + h.nodes, k + 1)))
    ensures PayloadsKept(h, m5, i)
  {
    var c := h.blocks[i + 1];
    ListingEffect(h, i, m2);
    MergeNextSound(h, i, k, Between(h, i, m2), m4, m5);
    FrameKeepsPayloads(h, i, i + 2, c.addr + c.size, m5, i);
  }

  // ------------------------------------------------- backward coalescing

  /** The footer left of block i + 1 leads to the header of block i, which has
      the magic number and is free: no panic in backward coalescing
      (mm/simple_mm.c:141-151). */
  lemma BackwardReads(h: Heap, i: int)
    requires Sound(h) && 0 <= i && i + 1 < |h.blocks| && h.blocks[i].free
    ensures var b := h.blocks[i]; var c := h.blocks[i + 1];
      && c.addr == b.addr + b.size && 0 <= b.addr && 4 <= c.addr && c.addr + 8 + h.ptr < |h.mem|
      && c.addr + c.size <= |h.mem|
      && c.size >= HeadSize(h.ptr) + MIN_BLOCK_SIZE
    ensures var b := h.blocks[i]; var c := h.blocks[i + 1];
      b.addr + 4 < |h.mem| && c.addr + 4 < |h.mem| && c.addr - 4 < |h.mem|
    ensures var b := h.blocks[i]; var c := h.blocks[i + 1];
      && ExtractSize(h.mem[c.addr - 4]) == b.size
      && h.mem[b.addr] == MAGIC && IsFree(h.mem[b.addr + 4]) && ExtractSize(h.mem[b.addr + 4]) == b.size
      && ExtractSize(h.mem[c.addr + 4]) == c.size
  {
    var b, c := h.blocks[i], h.blocks[i + 1];
    Unfold(h);
    HeaderReads(h, i);
    HeaderReads(h, i + 1);
    assert FooterAt(h.mem, b);
    PackReads(b.size, true, PrevFree(h.blocks, i), b.poisoned);
    PackReads(c.size, c.free, true, c.poisoned);
  }

  lemma BackwardReach(h: Heap, i: int, k: int, w: int)
    requires Sound(h) && 0 <= i && i + 1 < |h.blocks| && h.blocks[i].free && h.blocks[i + 1].free
    requires 0 <= k < |h.nodes| && h.nodes[k] == h.blocks[i + 1].addr + 8
    ensures var x := h.blocks[i].addr + 4; var n := h.blocks[i + 1].addr + 8;
      && 0 <= x < |h.mem|
      && (var m1 := h.mem[x := w];
        NodeFits(m1, h.ptr, n) && NodeFits(m1, h.ptr, m1[n]) && NodeFits(m1, h.ptr, m1[n + h.ptr]))
  {
    Unfold(h);
    MergeLinks(h, i, k, w);
  }

  lemma BackwardDone(h: Heap, i: int, k: int, m2: Mem, m3: Mem)
    requires Sound(h) && 0 <= i && i + 1 < |h.blocks| && h.blocks[i].free && h.blocks[i + 1].free
    requires 0 <= k < |h.nodes| && h.nodes[k] == h.blocks[i + 1].addr + 8
    requires Absorbed(h.mem, h.ptr, h.blocks[i].addr, h.blocks[i + 1].addr, h.blocks[i].size
      + h.blocks[i + 1].size, m2, m3)
    ensures Sound(Heap(h.ptr, h.head, h.base, h.end, m3,
      Replace(h.blocks, i, i + 2, [Joined(h.blocks[i], h.blocks[i + 1])]), Without(h.nodes, k)))
    ensures PayloadsKept(h, m3, -1)
  {
    var b, c := h.blocks[i], h.blocks[i + 1];
    AbsorbedIs(h.mem, h.ptr, b.addr, c.addr, b.size + c.size, m2, m3);
    Unfold(h);
    MergeLinks(h, i, k, b.size + c.size + ExtractFlag(h.mem[b.addr + 4]));
    MergePrevSound(h, i, k, m2, m3);
    FrameKeepsPayloads(h, i, i + 2, c.addr + c.size, m3, -1);
  }

  // ----------------------------------------------------- walking the list

  lemma ListStart(h: Heap)
    requires Inv(h)
    ensures h.ptr == 4 || h.ptr == 8
    ensures NodeFits(h.mem, h.ptr, h.head)
    ensures h.mem[h.head + h.ptr] == if h.nodes == [] then h.head else h.nodes[0]
  {
    Unfold(h);
    FirstNode(h.mem, h.ptr, h.head, h.nodes);
  }

  /** The k-th node belongs to a free block; its header and its `next` link. */
  lemma WalkReads(h: Heap, k: int) returns (i: int)
    requires Inv(h) && 0 <= k < |h.nodes|
    ensures Placed(h, i) && h.blocks[i].free && IsBlock(h.blocks, i, h.nodes[k])
    ensures var w := h.mem[h.blocks[i].addr + 4]; IsFree(w) && ExtractSize(w) == h.blocks[i].size
    ensures var n := h.nodes[k];
      0 <= n && n + h.ptr < |h.mem| && h.mem[n + h.ptr] == if k + 1 == |h.nodes| then h.head else h.nodes[k + 1]
    ensures h.nodes[k] != h.head
  {
    Unfold(h);
    i := BlockOf(h.blocks, h.nodes, k);
    PlacedAt(h, i);
    HeaderReads(h, i);
    var b := h.blocks[i];
    PackReads(b.size, true, PrevFree(h.blocks, i), b.poisoned);
    Neighbours(h.mem, h.ptr, h.head, h.nodes, k);
  }

  /** Only one block is at the address of a node. */
  lemma BlockUnique(h: Heap, k: int, i: int, need: int)
    requires Inv(h) && 0 <= k < |h.nodes| && IsBlock(h.blocks, i, h.nodes[k]) && h.blocks[i].size < need
    ensures forall j :: IsBlock(h.blocks, j, h.nodes[k]) ==> h.blocks[j].size < need
  {
    Unfold(h);
    forall j | IsBlock(h.blocks, j, h.nodes[k])
      ensures j == i
    {
      OneOwner(h.blocks, h.base, h.end, HeadSize(h.ptr), i, j, h.nodes[k] - 8);
    }
  }

  /** When the whole list was passed, no free block fits. */
  lemma ScanComplete(h: Heap, need: int, k: int)
    requires Inv(h) && k == |h.nodes|
    requires forall q, j :: 0 <= q < k && IsBlock(h.blocks, j, h.nodes[q]) ==> h.blocks[j].size < need
    ensures NoFit(h.blocks, need)
  {
    Unfold(h);
    forall i | 0 <= i < |h.blocks| && h.blocks[i].free
      ensures h.blocks[i].size < need
    {
      var q := NodeOf(h.blocks, h.nodes, i);
      assert IsBlock(h.blocks, i, h.nodes[q]);
    }
  }

  lemma FindNode(h: Heap, i: int) returns (k: int)
    requires Sound(h) && 0 <= i < |h.blocks| && h.blocks[i].free
    ensures 0 <= k < |h.nodes| && h.nodes[k] == h.blocks[i].addr + 8
  {
    Unfold(h);
    k := NodeOf(h.blocks, h.nodes, i);
  }

  lemma DropNode(h: Heap, k: int)
    requires Sound(h) && 0 <= k < |h.nodes|
    ensures Drop(h.nodes, h.nodes[k]) == Without(h.nodes, k)
  {
    Unfold(h);
    DropIsWithout(h.nodes, k);
  }

  lemma DropNext(h: Heap, i: int, k: int)
    requires InUse(h, i) && 0 <= k < |h.nodes|
    ensures var all := [h.blocks[i].addr + 8] + h.nodes; Drop(all, h.nodes[k]) == Without(all, k + 1)
  {
    Unfold(h);
    ReleaseListed(h, i);
    DropIsWithout([h.blocks[i].addr + 8] + h.nodes, k + 1);
  }

  /** After forward coalescing the PREV_FREE flag of the block still tells
      whether its left neighbour is free. */
  lemma PrevFlag(h: Heap, h1: Heap, i: int)
    requires InUse(h, i) && Sound(h1) && h1.blocks == ForwardBlocks(h.blocks, i)
    ensures var a := h.blocks[i].addr; 0 <= a && a + 4 < |h1.mem|
    ensures var a := h.blocks[i].addr; IsPrevFree(h1.mem[a + 4]) <==> FreeLeft(h.blocks, i)
    ensures var a := h.blocks[i].addr;
      FreeLeft(h.blocks, i) ==> i < |h1.blocks| && h1.blocks[i - 1].free && h1.blocks[i].free && h1.blocks[i].addr == a
  {
    ForwardAt(h.blocks, i);
    HeaderReads(h1, i);
    var b := h1.blocks[i];
    PackReads(b.size, b.free, PrevFree(h1.blocks, i), b.poisoned);
  }

  /** Both halves of free keep every payload but the freed one. */
  lemma FreeKeeps(h: Heap, h1: Heap, i: int, m: Mem)
    requires InUse(h, i) && h1.blocks == ForwardBlocks(h.blocks, i) && h1.ptr == h.ptr
    requires PayloadsKept(h, h1.mem, i) && (m == h1.mem || PayloadsKept(h1, m, -1))
    ensures PayloadsKept(h, m, i)
  {
    if m != h1.mem {
      forall q, x | InPayload(h, q, x) && q != i
        ensures m[x] == h.mem[x]
      {
        ForwardAt(h.blocks, i);
        var q' := if q < i then q else if FreeRight(h.blocks, i) then q - 1 else q;
        if q > i {
          if FreeRight(h.blocks, i) { ReplaceAt(h.blocks, i, i + 2, [Joined(h.blocks[i], h.blocks[i + 1])], q'); }
          else { ReplaceAt(h.blocks, i, i + 1, [Freed(h.blocks[i])], q'); }
        }
        assert InPayload(h1, q', x);
      }
    }
  }

  // ----------------------------------------------------------- accounting

  /** The size of the block at the address of node n, 0 if there is none. */
  ghost function SizeAt(blocks: seq<Block>, n: int): int {
    if blocks == [] then 0 else if blocks[0].addr == n - 8 then blocks[0].size else SizeAt(blocks[1..], n)
  }

  ghost function ListBytes(blocks: seq<Block>, nodes: seq<int>): int {
    if nodes == [] then 0 else ListBytes(blocks, nodes[..|nodes| - 1]) + SizeAt(blocks, nodes[|nodes| - 1])
  }

  lemma {:induction false} SizeAtIs(blocks: seq<Block>, i: int)
    requires 0 <= i < |blocks| && forall j :: 0 <= j < i ==> blocks[j].addr != blocks[i].addr
    ensures SizeAt(blocks, blocks[i].addr + 8) == blocks[i].size
  {
    if i > 0 {
      assert blocks[0].addr != blocks[i].addr && blocks[1..][i - 1] == blocks[i];
      SizeAtIs(blocks[1..], i - 1);
    }
  }

  lemma BlockSizeAt(h: Heap, i: int)
    requires Sound(h) && 0 <= i < |h.blocks|
    ensures SizeAt(h.blocks, h.blocks[i].addr + 8) == h.blocks[i].size
  {
    Unfold(h);
    forall j | 0 <= j < i
      ensures h.blocks[j].addr != h.blocks[i].addr
    {
      Ordered(h.blocks, h.base, h.end, HeadSize(h.ptr), j, i);
    }
    SizeAtIs(h.blocks, i);
  }

  lemma ListBytesStep(h: Heap, k: int, i: int)
    requires Inv(h) && 0 <= k < |h.nodes| && IsBlock(h.blocks, i, h.nodes[k])
    ensures ListBytes(h.blocks, h.nodes[..k + 1]) == ListBytes(h.blocks, h.nodes[..k]) + h.blocks[i].size
  {
    BlockSizeAt(h, i);
    assert h.nodes[..k + 1][..k] == h.nodes[..k];
  }

  /** Adding up along the list, in whatever order it is, gives the free bytes
      of the tiling. */
  lemma ListBytesAll(h: Heap)
    requires Inv(h)
    ensures ListBytes(h.blocks, h.nodes) == BytesWhere(h.blocks, true)
  {
    Unfold(h);
    SumByNodes(h, h.nodes, |h.blocks|);
    assert h.blocks[..|h.blocks|] == h.blocks;
  }

  /** The free bytes of the first n blocks are the list bytes of any
      duplicate-free listing of their nodes. */
  lemma {:induction false} SumByNodes(h: Heap, nodes: seq<int>, n: int)
    requires Sound(h) && 0 <= n <= |h.blocks| && Distinct(nodes)
    requires forall x {:trigger Listed(nodes, x)} :: Listed(nodes, x) <==> IsFreeNode(h.blocks[..n], x)
    ensures ListBytes(h.blocks, nodes) == BytesWhere(h.blocks[..n], true)
    decreases n
  {
    if n == 0 {
      if nodes != [] {
        assert Listed(nodes, nodes[0]);
        assert false;
      }
    } else {
      var b := h.blocks[n - 1];
      assert h.blocks[..n] == h.blocks[..n - 1] + [b];
      BytesWhereLast(h.blocks[..n - 1], b);
      if b.free {
        FreeNodeLast(h, n);
        assert Listed(nodes, b.addr + 8);
        var k :| 0 <= k < |nodes| && nodes[k] == b.addr + 8;
        WithoutMembers(nodes, k);
        SumByNodes(h, Without(nodes, k), n - 1);
        ListBytesWithout(h.blocks, nodes, k);
        BlockSizeAt(h, n - 1);
      } else {
        FreeNodeLast(h, n);
        SumByNodes(h, nodes, n - 1);
      }
    }
  }

  /** The nodes among the first n blocks: those of the first n - 1, and the
      last one if it is free. */
  lemma FreeNodeLast(h: Heap, n: int)
    requires Sound(h) && 0 < n <= |h.blocks|
    ensures forall x {:trigger IsFreeNode(h.blocks[..n - 1], x)} ::
              IsFreeNode(h.blocks[..n - 1], x)
              <==> IsFreeNode(h.blocks[..n], x) && !(h.blocks[n - 1].free && x == h.blocks[n - 1].addr + 8)
    ensures h.blocks[n - 1].free ==> IsFreeNode(h.blocks[..n], h.blocks[n - 1].addr + 8)
  {
    Unfold(h);
    var s, t := h.blocks[..n - 1], h.blocks[..n];
    assert t[n - 1] == h.blocks[n - 1];
    forall x
      ensures IsFreeNode(s, x) <==> IsFreeNode(t, x) && !(h.blocks[n - 1].free && x == h.blocks[n - 1].addr + 8)
    {
      if IsFreeNode(s, x) {
        var i :| 0 <= i < |s| && s[i].free && x == s[i].addr + 8;
        assert t[i] == s[i];
        Ordered(h.blocks, h.base, h.end, HeadSize(h.ptr), i, n - 1);
      }
      if IsFreeNode(t, x) && !(h.blocks[n - 1].free && x == h.blocks[n - 1].addr + 8) {
        var i :| 0 <= i < |t| && t[i].free && x == t[i].addr + 8;
        assert s[i] == t[i];
      }
    }
  }

  lemma {:induction false} BytesWhereLast(blocks: seq<Block>, b: Block)
    ensures BytesWhere(blocks + [b], true) == BytesWhere(blocks, true) + if b.free then b.size else 0
  {
    if blocks == [] {
      assert blocks + [b] == [b];
      assert [b][1..] == [];
    } else {
      assert (blocks + [b])[1..] == blocks[1..] + [b];
      BytesWhereLast(blocks[1..], b);
    }
  }

  lemma {:induction false} ListBytesWithout(blocks: seq<Block>, nodes: seq<int>, k: int)
    requires 0 <= k < |nodes|
    ensures ListBytes(blocks, nodes) == ListBytes(blocks, Without(nodes, k)) + SizeAt(blocks, nodes[k])
    decreases |nodes|
  {
    var l := |nodes| - 1;
    if k == l {
      assert Without(nodes, k) == nodes[..l];
    } else {
      ListBytesWithout(blocks, nodes[..l], k);
      var w := Without(nodes, k);
      assert w[..|w| - 1] == Without(nodes[..l], k);
    }
  }

  // ------------------------------------------------------- initialisation

  /** The stores of simple_init (mm/simple_mm.c:53-68) for a first block of
      `size` bytes at b. */
  ghost function InitMem(m: Mem, ptr: int, head: int, b: int, size: int, debug: bool): (r: Mem)
    requires 0 < b && 0 <= size && b + 8 + ptr < |m| && b + size + 4 < |m| && NodeFits(m, ptr, head)
    ensures |r| == |m|
  {
    var m1 := m[b := MAGIC][b + 4 := Pack(size, true, false, debug)][b + size := MAGIC][b + size + 4 := Pack(0, false,
      true, false)];
    ListAdd(ListInit(m1, ptr, head), ptr, b + 8, head)
  }

  ghost function InitHeap(m: Mem, ptr: int, head: int, b: int, size: int, debug: bool): Heap {
    Heap(ptr, head, b, b + size, m, [Block(b, size, true, debug)], [b + 8])
  }

  lemma InitWords(m: Mem, ptr: int, head: int, b: int, size: int, debug: bool)
    requires (ptr == 4 || ptr == 8) && size % 8 == 0 && HeadSize(ptr) <= size < 0x1_0000_0000 && 0 < b && b % 8 == 0
    requires 0 < head
    requires b + size + HeadSize(ptr) <= |m| && head + 2 * ptr <= |m|
    requires head + 2 * ptr <= b || b + size + HeadSize(ptr) <= head
    ensures var r := InitMem(m, ptr, head, b, size, debug);
      HeaderAt(r, Block(b, size, true, debug), false) && HeaderAt(r, EndBlock(b + size), true)
  {
  }

  lemma InitLinked(m: Mem, ptr: int, head: int, b: int, size: int, debug: bool)
    requires (ptr == 4 || ptr == 8) && size % 8 == 0 && HeadSize(ptr) <= size < 0x1_0000_0000 && 0 < b && b % 8 == 0
    requires 0 < head
    requires b + size + HeadSize(ptr) <= |m| && head + 2 * ptr <= |m|
    requires head + 2 * ptr <= b || b + size + HeadSize(ptr) <= head
    ensures Linked(InitMem(m, ptr, head, b, size, debug), ptr, head, [b + 8])
  {
    var m1 := m[b := MAGIC][b + 4 := Pack(size, true, false, debug)][b + size := MAGIC][b + size + 4 := Pack(0, false,
      true, false)];
    InitLinks(m1, ptr, head);
    assert [b + 8] + [] == [b + 8];
    AddLinks(ListInit(m1, ptr, head), ptr, head, [], b + 8);
  }

  lemma InitDone(m: Mem, ptr: int, head: int, b: int, size: int, debug: bool)
    requires (ptr == 4 || ptr == 8) && size % 8 == 0 && HeadSize(ptr) <= size < 0x1_0000_0000 && 0 < b && b % 8 == 0
    requires 0 < head
    requires b + size + HeadSize(ptr) <= |m| && head + 2 * ptr <= |m|
    requires head + 2 * ptr <= b || b + size + HeadSize(ptr) <= head
    ensures Inv(InitHeap(InitMem(m, ptr, head, b, size, debug), ptr, head, b, size, debug))
  {
    var h := InitHeap(InitMem(m, ptr, head, b, size, debug), ptr, head, b, size, debug);
    InitLinked(m, ptr, head, b, size, debug);
    InitListed(b, size, debug);
    assert PrevFree(h.blocks, 0) == false && PrevFree(h.blocks, 1) == true;
    InitWords(m, ptr, head, b, size, debug);
    Fold(h);
  }

  lemma InitListed(b: int, size: int, debug: bool)
    ensures ListsFree([Block(b, size, true, debug)], [b + 8])
  {
    var blocks := [Block(b, size, true, debug)];
    assert blocks[0].free;
  }

  /** A region too short for two headers: the end header lands on the first
      one, and the first block no longer reads as a free block followed by an
      end header. */
  lemma InitTooShort(m: Mem, ptr: int, head: int, b: int, size: int, debug: bool)
    requires (ptr == 4 || ptr == 8) && size % 8 == 0 && 0 <= size < HeadSize(ptr) && 0 < b && b % 8 == 0 && 0 < head
    requires head % 8 == 0
    requires b + size + HeadSize(ptr) <= |m| && head + 2 * ptr <= |m|
    requires head + 2 * ptr <= b || b + size + HeadSize(ptr) <= head
    ensures var r := InitMem(m, ptr, head, b, size, debug); !(r[b + size] == MAGIC && IsFree(r[b + 4]))
  {
    assert MAGIC % 8 != 0;
    assert size == 0 || size == 8 || size == 16;
  }

  lemma FirstSize(ptr: int, size: int)
    requires (ptr == 4 || ptr == 8) && size >= HeadSize(ptr)
    ensures var first := size - size % 8 - HeadSize(ptr); first % 8 == 0 && 0 <= first <= size - HeadSize(ptr)
  {
  }

  lemma InitReads(h: Heap, debug: bool)
    requires Inv(h) && |h.blocks| == 1 && h.blocks[0].free
    ensures var b := h.blocks[0]; 0 <= b.addr && b.addr + 4 < |h.mem| && IsFree(h.mem[b.addr + 4])
    ensures 0 <= h.end < |h.mem| && h.mem[h.end] == MAGIC
  {
    var b := h.blocks[0];
    HeaderReads(h, 0);
    PackReads(b.size, true, false, b.poisoned);
    Unfold(h);
  }

  // ----------------------------------------- promises about live pointers

  /** What malloc gives: a live, aligned payload of the right length, and no
      other change among live pointers. */
  ghost predicate Gives(before: seq<Block>, after: seq<Block>, hs: int, p: int, i: int, size: int) {
    && 0 <= i < |after| && !after[i].free && p == after[i].addr + hs && p % 8 == 0
    && size <= RoundUp(size) <= after[i].size - hs <= RoundUp(size) + hs + MIN_BLOCK_SIZE
    && !LiveAt(before, hs, p)
    && forall q :: LiveAt(after, hs, q) <==> LiveAt(before, hs, q) || q == p
  }

  lemma MallocGives(h: Heap, i: int, size: int)
    requires Inv(h) && 0 <= i < |h.blocks| && h.blocks[i].free && 0 <= size
    requires h.blocks[i].size >= RoundUp(size) + HeadSize(h.ptr)
    ensures var hs := HeadSize(h.ptr);
      && var taken := TakenBlocks(h.blocks, i, RoundUp(size) + hs, hs);
      && Gives(h.blocks, taken, hs, h.blocks[i].addr + hs, i, size)
      && var all := h.blocks[i].size - hs;
        taken[i].size - hs == if all - RoundUp(size) > hs + MIN_BLOCK_SIZE then RoundUp(size) else all
  {
    Unfold(h);
    var hs := HeadSize(h.ptr);
    PayloadFits(h.blocks, h.base, h.end, hs, i, size);
    TakenLive(h.blocks, h.base, h.end, hs, i, RoundUp(size) + hs, h.blocks[i].addr + hs);
    TakenLiveAll(h.blocks, h.base, h.end, hs, i, RoundUp(size) + hs);
  }

  lemma TakenLiveAll(blocks: seq<Block>, base: int, end: int, hs: int, i: int, need: int)
    requires Tiled(blocks, base, end, hs) && 0 < hs && 0 <= i < |blocks| && blocks[i].free
    ensures forall q ::
      LiveAt(TakenBlocks(blocks, i, need, hs), hs, q) <==> LiveAt(blocks, hs, q) || q == blocks[i].addr + hs
  {
    forall q
      ensures LiveAt(TakenBlocks(blocks, i, need, hs), hs, q) <==> LiveAt(blocks, hs, q) || q == blocks[i].addr + hs
    {
      TakenLive(blocks, base, end, hs, i, need, q);
    }
  }

  lemma FreeEnds(h: Heap, i: int)
    requires InUse(h, i)
    ensures var hs := HeadSize(h.ptr);
      forall q :: LiveAt(FreedBlocks(h.blocks, i), hs, q) <==> LiveAt(h.blocks, hs, q) && q != h.blocks[i].addr + hs
  {
    Unfold(h);
    var hs := HeadSize(h.ptr);
    forall q
      ensures LiveAt(FreedBlocks(h.blocks, i), hs, q) <==> LiveAt(h.blocks, hs, q) && q != h.blocks[i].addr + hs
    {
      FreedLive(h.blocks, h.base, h.end, hs, i, q);
    }
  }

  // ------------------------------------------------------------- realloc

  /** malloc, the copy into the new payload and free, as far as the payloads of
      the blocks before the call are concerned. */
  lemma ReallocKeeps(h: Heap, h1: Heap, h2: Heap, m3: Mem, i: int, i1: int, j: int, need: int)
    requires Inv(h) && 0 <= i < |h.blocks| && !h.blocks[i].free && 0 <= j < |h.blocks| && h.blocks[j].free
    requires h1.ptr == h.ptr && h1.blocks == TakenBlocks(h.blocks, j, need, HeadSize(h.ptr))
    requires PayloadsKept(h, h1.mem, j) && |h2.mem| == |h1.mem| && h2.blocks == h1.blocks && h2.ptr == h1.ptr
    requires 0 <= j < |h1.blocks| && h1.blocks[j].addr == h.blocks[j].addr && h1.blocks[j].size <= h.blocks[j].size
    requires var q := h.blocks[j].addr + HeadSize(h.ptr); var end := h.blocks[j].addr + h.blocks[j].size;
      forall x :: 0 <= x < |h2.mem| && !(q <= x < end) ==> h2.mem[x] == h1.mem[x]
    requires PayloadsKept(h2, m3, i1) && 0 <= i1 < |h1.blocks| && h1.blocks[i1].addr == h.blocks[i].addr
    ensures PayloadsKept(h, m3, i)
  {
    forall q, x | InPayload(h, q, x) && q != i
      ensures m3[x] == h.mem[x]
    {
      ReallocKeepsAt(h, h1, h2, m3, i, i1, j, need, q, x);
    }
  }

  lemma ReallocKeepsAt(h: Heap, h1: Heap, h2: Heap, m3: Mem, i: int, i1: int, j: int, need: int, q: int, x: int)
    requires Inv(h) && 0 <= i < |h.blocks| && !h.blocks[i].free && 0 <= j < |h.blocks| && h.blocks[j].free
    requires h1.ptr == h.ptr && h1.blocks == TakenBlocks(h.blocks, j, need, HeadSize(h.ptr))
    requires PayloadsKept(h, h1.mem, j) && |h2.mem| == |h1.mem| && h2.blocks == h1.blocks && h2.ptr == h1.ptr
    requires var p := h.blocks[j].addr + HeadSize(h.ptr); var end := h.blocks[j].addr + h.blocks[j].size;
      forall y :: 0 <= y < |h2.mem| && !(p <= y < end) ==> h2.mem[y] == h1.mem[y]
    requires PayloadsKept(h2, m3, i1) && 0 <= i1 < |h1.blocks| && h1.blocks[i1].addr == h.blocks[i].addr
    requires InPayload(h, q, x) && q != i
    ensures m3[x] == h.mem[x]
  {
    Unfold(h);
    var hs := HeadSize(h.ptr);
    var r := TakenKeeps(h.blocks, j, need, hs, q);
    if h.blocks[j].addr + hs <= x < h.blocks[j].addr + h.blocks[j].size {
      OneOwner(h.blocks, h.base, h.end, hs, q, j, x);
    }
    if r == i1 {
      OneOwner(h.blocks, h.base, h.end, hs, q, i, h.blocks[i].addr);
    }
    assert InPayload(h2, r, x);
  }

  /** The old block and the new one after malloc. What realloc reads, the old
      payload and the header after it, lies outside the new payload. */
  lemma ReallocBlocks(h: Heap, h1: Heap, i: int, j: int, need: int) returns (i1: int)
    requires Inv(h) && 0 <= i < |h.blocks| && !h.blocks[i].free && 0 <= j < |h.blocks| && h.blocks[j].free
    requires Inv(h1) && h1.ptr == h.ptr && h1.blocks == TakenBlocks(h.blocks, j, need, HeadSize(h.ptr))
    requires h.blocks[j].size >= need
    ensures 0 <= i1 < |h1.blocks| && h1.blocks[i1] == h.blocks[i] && i1 != j
    ensures 0 <= j < |h1.blocks| && !h1.blocks[j].free && h1.blocks[j].addr == h.blocks[j].addr
    ensures need <= h1.blocks[j].size <= h.blocks[j].size
    ensures var b := h.blocks[i]; var c := h1.blocks[j]; var hs := HeadSize(h.ptr);
      && 0 <= b.addr && b.addr + hs + b.size <= |h1.mem| && 0 <= c.addr && c.addr + c.size <= |h1.mem|
      && (b.addr + b.size + hs <= c.addr + hs || c.addr + c.size <= b.addr)
  {
    i1 := TakenKeeps(h.blocks, j, need, HeadSize(h.ptr), i);
    var b := h.blocks[j];
    var mid := if Splits(b, need, HeadSize(h.ptr)) then Halves(b, need) else [b.(free := false)];
    ReplaceAt(h.blocks, j, j + 1, mid, j);
    PlacedAt(h1, j);
    PlacedAt(h1, i1);
    Unfold(h1);
    if i1 < j {
      Ordered(h1.blocks, h1.base, h1.end, HeadSize(h.ptr), i1, j);
    } else {
      Ordered(h1.blocks, h1.base, h1.end, HeadSize(h.ptr), j, i1);
    }
  }

  /** The payload of the old block, read at its new place. */
  lemma MovedPayload(h: Heap, h1: Heap, h2: Heap, m3: Mem, i: int, i1: int, j: int, n: int)
    requires Inv(h) && Placed(h, i) && !h.blocks[i].free && n == h.blocks[i].size - HeadSize(h.ptr)
    requires 0 <= j < |h.blocks| && h.blocks[j].free && PayloadsKept(h, h1.mem, j)
    requires h1.blocks == h2.blocks && h1.ptr == h2.ptr == h.ptr && |h1.mem| == |h2.mem|
    requires 0 <= i1 < |h1.blocks| && 0 <= j < |h1.blocks| && i1 != j && !h1.blocks[j].free && 0 <= h1.blocks[j].addr
    requires var q := h1.blocks[j].addr + HeadSize(h.ptr); var p := h.blocks[i].addr + HeadSize(h.ptr);
      q + n <= h1.blocks[j].addr + h1.blocks[j].size && q + n <= |h1.mem| && h2.mem[q..q + n] == h1.mem[p..p + n]
    requires PayloadsKept(h2, m3, i1)
    ensures var q := h1.blocks[j].addr + HeadSize(h.ptr); var p := h.blocks[i].addr + HeadSize(h.ptr);
      m3[q..q + n] == h.mem[p..p + n]
  {
    var q, p := h1.blocks[j].addr + HeadSize(h.ptr), h.blocks[i].addr + HeadSize(h.ptr);
    assert m3[q..q + n] == h2.mem[q..q + n] by {
      forall y | q <= y < q + n
        ensures m3[y] == h2.mem[y]
      {
        assert InPayload(h2, j, y);
      }
    }
    assert h1.mem[p..p + n] == h.mem[p..p + n] by {
      forall y | p <= y < p + n
        ensures h1.mem[y] == h.mem[y]
      {
        assert InPayload(h, i, y);
      }
    }
  }

  ghost predicate RelocatedBody(h: Heap, h': Heap, p: int, q: int, i: int, r: int, size: int) {
    && 0 <= i < |h.blocks|
    && (var hs := HeadSize(h.ptr);
        var n := h.blocks[i].size - hs;
        && 0 <= n && 0 <= p && p + n <= |h.mem| && 0 <= q && q + n <= |h'.mem|
        && h'.mem[q..q + n] == h.mem[p..p + n]
        && 0 <= r < |h'.blocks| && !h'.blocks[r].free && q == h'.blocks[r].addr + hs && size <= h'.blocks[r].size - hs
        && (forall x :: LiveAt(h'.blocks, hs, x) <==> (LiveAt(h.blocks, hs, x) || x == q) && x != p)
        && PayloadsKept(h, h'.mem, i))
  }

  ghost predicate FoldedRelocated(h: Heap, h': Heap, p: int, q: int, i: int, r: int, size: int, n: nat) {
    if n == 0 then RelocatedBody(h, h', p, q, i, r, size) else FoldedRelocated(h, h', p, q, i, r, size, n - 1)
  }

  /** The payload of block i of h has moved to q: same words, room for `size`
      bytes, p no longer live, all other live pointers and payloads as before.
      Folded; see `RelocatedIs`. */
  ghost predicate Relocated(h: Heap, h': Heap, p: int, q: int, i: int, r: int, size: int) {
    FoldedRelocated(h, h', p, q, i, r, size, |h.mem| + 4)
  }

  lemma {:induction false} FoldedRelocatedIs(h: Heap, h': Heap, p: int, q: int, i: int, r: int, size: int, n: nat)
    ensures FoldedRelocated(h, h', p, q, i, r, size, n) <==> RelocatedBody(h, h', p, q, i, r, size)
  {
    if n > 0 { FoldedRelocatedIs(h, h', p, q, i, r, size, n - 1); }
  }

  lemma RelocatedIs(h: Heap, h': Heap, p: int, q: int, i: int, r: int, size: int)
    ensures Relocated(h, h', p, q, i, r, size) <==> RelocatedBody(h, h', p, q, i, r, size)
  {
    FoldedRelocatedIs(h, h', p, q, i, r, size, |h.mem| + 4);
  }

  /** The n words at p are at q too, and nothing else has changed. */
  ghost predicate Copied(m: Mem, m': Mem, p: int, q: int, n: int) {
    && 0 <= n && 0 <= p && 0 <= q && p + n <= |m| && q + n <= |m| == |m'| && m'[q..q + n] == m[p..p + n]
    && forall x :: 0 <= x < |m'| && !(q <= x < q + n) ==> m'[x] == m[x]
  }

  /** Live pointers after malloc (h1) and free (h3). */
  ghost predicate LiveMoved(h: Heap, h1: Heap, h3: Heap, p: int, q: int) {
    var hs := HeadSize(h.ptr);
    && (forall r :: LiveAt(h1.blocks, hs, r) <==> LiveAt(h.blocks, hs, r) || r == q)
    && (forall r :: LiveAt(h3.blocks, hs, r) <==> LiveAt(h1.blocks, hs, r) && r != p)
  }

  lemma SlicePrefix(m: Mem, m': Mem, a: int, b: int, n: int, k: int)
    requires 0 <= k <= n && 0 <= a && a + n <= |m| && 0 <= b && b + n <= |m'| && m[a..a + n] == m'[b..b + n]
    ensures m[a..a + k] == m'[b..b + k]
  {
    assert m[a..a + k] == m[a..a + n][..k];
    assert m'[b..b + k] == m'[b..b + n][..k];
  }

  /** malloc of block j (h to h1), the copy (h1 to h2), free of block i1 (h2 to h3). */
  /** The whole block has been copied, so its payload has. */
  lemma CopiedPayload(h: Heap, h1: Heap, h2: Heap, m3: Mem, i: int, i1: int, j: int, n: int)
    requires Inv(h) && Placed(h, i) && !h.blocks[i].free && n == h.blocks[i].size >= HeadSize(h.ptr) && 0 < h.ptr
    requires 0 <= j < |h.blocks| && h.blocks[j].free && PayloadsKept(h, h1.mem, j)
    requires h1.blocks == h2.blocks && h1.ptr == h2.ptr == h.ptr
    requires 0 <= i1 < |h1.blocks| && 0 <= j < |h1.blocks| && i1 != j && !h1.blocks[j].free && 0 <= h1.blocks[j].addr
    requires n <= h1.blocks[j].size - HeadSize(h.ptr)
    requires Copied(h1.mem, h2.mem, h.blocks[i].addr + HeadSize(h.ptr), h1.blocks[j].addr + HeadSize(h.ptr), n)
    requires PayloadsKept(h2, m3, i1)
    ensures var hs := HeadSize(h.ptr); var q := h1.blocks[j].addr + hs; var p := h.blocks[i].addr + hs;
      m3[q..q + n - hs] == h.mem[p..p + n - hs]
  {
    var hs := HeadSize(h.ptr);
    SlicePrefix(h2.mem, h1.mem, h1.blocks[j].addr + hs, h.blocks[i].addr + hs, n, n - hs);
    MovedPayload(h, h1, h2, m3, i, i1, j, n - hs);
  }

  lemma RelocateDone(h: Heap, h1: Heap, h2: Heap, h3: Heap, i: int, i1: int, j: int, n: int, size: int) returns (r: int)
    requires InUse(h, i) && n == h.blocks[i].size && 0 <= j < |h.blocks| && h.blocks[j].free
    requires PayloadsKept(h, h1.mem, j)
    requires h1.ptr == h2.ptr == h.ptr
    requires h1.blocks == h2.blocks == TakenBlocks(h.blocks, j, RoundUp(size) + HeadSize(h.ptr), HeadSize(h.ptr))
    requires 0 <= i1 < |h1.blocks| && h1.blocks[i1] == h.blocks[i] && i1 != j
    requires 0 <= j < |h1.blocks| && !h1.blocks[j].free && 0 <= h1.blocks[j].addr == h.blocks[j].addr
    requires n < size <= RoundUp(size) <= h1.blocks[j].size - HeadSize(h.ptr) && h1.blocks[j].size <= h.blocks[j].size
    requires var p := h.blocks[i].addr + HeadSize(h.ptr); var q := h.blocks[j].addr + HeadSize(h.ptr);
      && Copied(h1.mem, h2.mem, p, q, n) && LiveMoved(h, h1, h3, p, q)
    requires h3.ptr == h.ptr && h3.blocks == FreedBlocks(h2.blocks, i1) && PayloadsKept(h2, h3.mem, i1)
    ensures Relocated(h, h3, h.blocks[i].addr + HeadSize(h.ptr), h.blocks[j].addr + HeadSize(h.ptr), i, r, size)
  {
    var hs := HeadSize(h.ptr);
    var p, q := h.blocks[i].addr + hs, h.blocks[j].addr + hs;
    r := FreedKeeps(h2.blocks, i1, j);
    ReallocKeeps(h, h1, h2, h3.mem, i, i1, j, RoundUp(size) + hs);
    CopiedPayload(h, h1, h2, h3.mem, i, i1, j, n);
    RelocatedIs(h, h3, p, q, i, r, size);
  }
}
