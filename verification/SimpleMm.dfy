/** The allocator of mm/simple_mm.c: a class whose memory is changed in place. */
module SimpleMm {
  import opened SizeFlag
  import opened FreeList
  import opened HeapModel
  import opened HeapSteps
  import opened HeapOps
  import opened HeapGlue
  import opened HeapRuns

  const NULL := 0

  /** The test of simple_realloc (mm/simple_mm.c:253-257) keeps a block whose
      payload is smaller than the request. */
  predicate ShortInPlace(hs: int, blockSize: int, size: int) {
    blockSize - hs < size <= blockSize
  }

  class Allocator {
    const ptr: int                  // width of a pointer in bytes
    const head: int                 // address of free_mem_list_head
    const mem: array<int>           // memory, indexed by byte address
    ghost var base: int
    ghost var end: int
    ghost var blocks: seq<Block>
    ghost var nodes: seq<int>

    ghost function State(): Heap
      reads this, mem
    {
      Heap(ptr, head, base, end, mem[..], blocks, nodes)
    }

    ghost predicate Valid()
      reads this, mem
    {
      Inv(State())
    }

    /** p was returned by malloc and has not been freed: it is the payload of
        the used block i. */
    ghost predicate Live(p: int, i: int)
      reads this
    {
      0 <= i < |blocks| && !blocks[i].free && p == blocks[i].addr + HeadSize(ptr)
    }

    /** Bytes a caller may use in block i. */
    ghost function Payload(i: int): int
      requires 0 <= i < |blocks|
      reads this
    {
      blocks[i].size - HeadSize(ptr)
    }

    /** Memory of the given length, with free_mem_list_head at `head`. */
    constructor (ptr: int, head: int, length: nat)
      ensures this.ptr == ptr && this.head == head && mem.Length == length && fresh(mem)
    {
      this.ptr, this.head := ptr, head;
      mem := new int[length];
      base, end, blocks, nodes := 0, 0, [], [];
    }

    /** simple_init (mm/simple_mm.c:33-71): one free block and the end header.
        The heap is well formed exactly when two headers fit. */
    method Init(b: int, size: int, debug: bool) returns (ok: bool)
      requires (ptr == 4 || ptr == 8) && 0 < head && head % 8 == 0 && head + 2 * ptr <= mem.Length
      requires 0 <= b && b % 8 == 0 && 0 <= size < 0x1_0000_0000 && b + size <= mem.Length
      requires head + 2 * ptr <= b || b + size <= head
      modifies this`base, this`end, this`blocks, this`nodes, mem
      ensures ok <==> size >= HeadSize(ptr) && b != NULL
      ensures !ok ==> mem[..] == old(mem[..])
      ensures var first := size - size % 8 - HeadSize(ptr);
        ok && first >= HeadSize(ptr) ==>
          && Valid() && base == b && end == b + first
          && blocks == [Block(b, first, true, debug)] && nodes == [b + 8]
      ensures var first := size - size % 8 - HeadSize(ptr);
        ok ==> (first >= HeadSize(ptr) <==> mem[b + first] == MAGIC && IsFree(mem[b + 4]))
    {
      ok := size >= HeadSize(ptr) && b != NULL;
      if ok {
        var first := size - size % 8 - HeadSize(ptr);
        ghost var m := mem[..];
        FirstSize(ptr, size);
        WriteInit(b, first, debug);
        base, end, blocks, nodes := b, b + first, [Block(b, first, true, debug)], [b + 8];
        if first >= HeadSize(ptr) {
          InitDone(m, ptr, head, b, first, debug);
          InitReads(State(), debug);
        } else {
          InitTooShort(m, ptr, head, b, first, debug);
        }
      }
    }

    /** Both headers and the list with its only node (mm/simple_mm.c:49-69). */
    method WriteInit(b: int, first: int, debug: bool)
      requires (ptr == 4 || ptr == 8) && 0 < head && head + 2 * ptr <= mem.Length && 0 < b && 0 <= first
      requires b + first + HeadSize(ptr) <= mem.Length && (head + 2 * ptr <= b || b + first + HeadSize(ptr) <= head)
      modifies mem
      ensures mem[..] == InitMem(old(mem[..]), ptr, head, b, first, debug)
    {
      mem[b] := MAGIC;
      mem[b + 4] := Pack(first, true, false, debug);
      mem[b + first] := MAGIC;
      mem[b + first + 4] := Pack(0, false, true, false);
      mem[head + ptr] := head;
      mem[head] := head;
      ListAddNode(b + 8);
    }

    // ------------------------------------------------------------- the list

    method ListAddNode(n: int)
      requires NodeFits(mem[..], ptr, n) && NodeFits(mem[..], ptr, head) && NodeFits(mem[..], ptr, mem[..][head + ptr])
      modifies mem
      ensures mem[..] == ListAdd(old(mem[..]), ptr, n, head)
    {
      var next := mem[head + ptr];
      mem[n + ptr] := next;
      mem[n] := head;
      mem[head + ptr] := n;
      mem[next] := n;
    }

    method ListDelNode(n: int)
      requires NodeFits(mem[..], ptr, n) && NodeFits(mem[..], ptr, mem[..][n])
      requires NodeFits(mem[..], ptr, mem[..][n + ptr])
      modifies mem
      ensures mem[..] == ListDel(old(mem[..]), ptr, n)
    {
      var prev, next := mem[n], mem[n + ptr];
      mem[prev + ptr] := next;
      mem[next] := prev;
      mem[n + ptr] := 0;
      mem[n] := 0;
    }

    /** One store. */
    method Put(x: int, v: int)
      requires 0 <= x < mem.Length
      modifies mem
      ensures mem[..] == old(mem[..])[x := v]
    {
      mem[x] := v;
    }

    // --------------------------------------------------------------- malloc

    /** Mark block i used and take it off the list (mm/simple_mm.c:90-91). */
    method TakeOff(a: int, ghost i: int, ghost k: int)
      requires Candidate(State(), i, k) && blocks[i].addr == a
      modifies mem
      ensures TakenOff(old(State()), i, k, mem[..])
    {
      ghost var h := State();
      TakeReach(h, i, k);
      Put(a + 4, ClrFree(mem[a + 4]));
      ListDelNode(a + 8);
    }

    /** Hand out block i whole (mm/simple_mm.c:112-123). The corruption branch
        is unreachable. */
    method TakeWhole(a: int, f: int, ghost i: int, ghost k: int)
      requires Candidate(State(), i, k) && blocks[i].addr == a && blocks[i].size == f
      modifies this`blocks, this`nodes, mem
      ensures Valid()
      ensures blocks == Replace(old(blocks), i, i + 1, [old(blocks)[i].(free := false)])
      ensures nodes == Without(old(nodes), k)
      ensures PayloadsKept(old(State()), mem[..], i)
    {
      ghost var h := State();
      TakeOff(a, i, k);
      ghost var m2 := mem[..];
      NoCorruptionInMalloc(h, i, k, m2);
      var s := a + f;
      if mem[s] != MAGIC {
        assert false;
      }
      Put(s + 4, ClrPrevFree(mem[s + 4]));
      blocks := Replace(blocks, i, i + 1, [blocks[i].(free := false)]);
      nodes := Without(nodes, k);
      TakeWholeDone(h, i, k, m2, mem[..]);
    }

    /** Split block i and hand out its lower part (mm/simple_mm.c:94-111). */
    method TakeSplit(a: int, f: int, need: int, ghost i: int, ghost k: int)
      requires Candidate(State(), i, k) && CanSplit(State(), i, k, need) && blocks[i].addr == a && blocks[i].size == f
      modifies this`blocks, this`nodes, mem
      ensures Valid()
      ensures blocks == Replace(old(blocks), i, i + 1, Halves(old(blocks)[i], need))
      ensures nodes == [a + need + 8] + Without(old(nodes), k)
      ensures PayloadsKept(old(State()), mem[..], i)
    {
      ghost var h := State();
      TakeOff(a, i, k);
      ghost var m2 := mem[..];
      SplitRoom(h, i, k, need);
      ghost var m3 := ListRemainder(a + need, f - need, h, i, k, need, m2);
      ghost var m4 := mem[..];
      Put(a + 4, ClrFree(ExtractSize(need) + ExtractFlag(mem[a + 4])));
      blocks := Replace(blocks, i, i + 1, Halves(blocks[i], need));
      nodes := [a + need + 8] + Without(nodes, k);
      SplitDone(h, i, k, need, m2, m3, m4, mem[..]);
    }

    /** The remainder is built and listed (mm/simple_mm.c:97-107). */
    method ListRemainder(nb: int, rem: int, ghost h: Heap, ghost i: int, ghost k: int, ghost need: int, ghost m2: Mem)
      returns (ghost m3: Mem)
      requires Candidate(h, i, k) && CanSplit(h, i, k, need) && TakenOff(h, i, k, m2) && mem[..] == m2 && h.ptr == ptr
      requires h.head == head
      requires nb == h.blocks[i].addr + need && rem == h.blocks[i].size - need
      modifies mem
      ensures FoldedAddedRest(h, i, need, m2, m3, mem[..], |m2| + 4)
    {
      TakenOffEffect(h, i, k, m2);
      SplitRoom(h, i, k, need);
      BuildBlock(nb, rem);
      m3 := mem[..];
      SplitReach(h, i, k, need, m2, m3);
      ListAddNode(nb + 8);
      RestAdded(h, i, need, m2, m3, mem[..]);
    }

    /** Header and footer of a new free block (mm/simple_mm.c:98-104). */
    method BuildBlock(nb: int, rem: int)
      requires 0 <= nb && nb + 4 < mem.Length && 0 <= nb + rem - 4 < mem.Length
      modifies mem
      ensures mem[..] == BuildHeader(old(mem[..]), nb, rem)
    {
      mem[nb] := MAGIC;
      mem[nb + rem - 4] := rem;
      mem[nb + 4] := ClrPoisoned(ClrPrevFree(SetFree(rem)));
    }

    /** The walk of simple_malloc (mm/simple_mm.c:83-86): the first block of the
        list with at least `need` bytes, or none. */
    method FindFit(need: int) returns (found: bool, a: int, f: int, ghost i: int, ghost k: int)
      requires Valid() && need >= HeadSize(ptr) + MIN_BLOCK_SIZE
      ensures found <==> !NoFit(blocks, need)
      ensures found ==>
        FirstFit(blocks, nodes, need, i, k) && Candidate(State(), i, k) && a == blocks[i].addr && f == blocks[i].size
    {
      ghost var h := State();
      ListStart(h);
      found, a, f, i, k := false, 0, 0, 0, 0;
      var it := mem[head + ptr];
      while it != head
        invariant 0 <= k <= |nodes| && it == (if k == |nodes| then head else nodes[k])
        invariant forall q, j :: 0 <= q < k && IsBlock(blocks, j, nodes[q]) ==> blocks[j].size < need
        decreases |nodes| - k
      {
        i := WalkReads(h, k);
        a := it - 8;
        f := ExtractSize(mem[a + 4]);
        if IsFree(mem[a + 4]) && f >= need {
          found := true;
          return;
        }
        BlockUnique(h, k, i, need);
        it := mem[it + ptr];
        k := k + 1;
      }
      if k < |nodes| {
        i := WalkReads(h, k);
      }
      ScanComplete(h, need, k);
    }

    /** Hand out the block that was found, split if enough is left. */
    method TakeFit(a: int, f: int, need: int, ghost i: int, ghost k: int)
      requires Candidate(State(), i, k) && a == blocks[i].addr && f == blocks[i].size
      requires need <= f && need >= HeadSize(ptr) + MIN_BLOCK_SIZE && need % 8 == 0
      modifies this`blocks, this`nodes, mem
      ensures Valid()
      ensures blocks == TakenBlocks(old(blocks), i, need, HeadSize(ptr))
      ensures nodes == TakenNodes(old(blocks), old(nodes), i, k, need, HeadSize(ptr))
      ensures PayloadsKept(old(State()), mem[..], i)
    {
      if f - need > HeadSize(ptr) + MIN_BLOCK_SIZE {
        TakeSplit(a, f, need, i, k);
      } else {
        TakeWhole(a, f, i, k);
      }
    }

    /** simple_malloc (mm/simple_mm.c:74-132): first fit in list order, NULL
        exactly when no free block is large enough. */
    method Malloc(size: int) returns (p: int, ghost i: int, ghost k: int)
      requires Valid() && NonWrapping(ptr, size)
      modifies this`blocks, this`nodes, mem
      ensures Valid()
      ensures p == NULL <==> NoFit(old(blocks), RoundUp(size) + HeadSize(ptr))
      ensures p == NULL ==> blocks == old(blocks) && nodes == old(nodes) && mem[..] == old(mem[..])
      ensures var need := RoundUp(size) + HeadSize(ptr);
        p != NULL ==>
          && FirstFit(old(blocks), old(nodes), need, i, k)
          && p == old(blocks)[i].addr + HeadSize(ptr)
          && blocks == TakenBlocks(old(blocks), i, need, HeadSize(ptr))
          && nodes == TakenNodes(old(blocks), old(nodes), i, k, need, HeadSize(ptr))
      ensures p != NULL ==> PayloadsKept(old(State()), mem[..], i)
      ensures p != NULL ==> Gives(old(blocks), blocks, HeadSize(ptr), p, i, size)
      ensures var hs := HeadSize(ptr);
        p != NULL ==>
          var all := old(blocks)[i].size - hs;
          Payload(i) == if all - RoundUp(size) > hs + MIN_BLOCK_SIZE then RoundUp(size) else all
    {
      ghost var h := State();
      ListStart(h);
      NeedExact(ptr, size);
      var need := Need(ptr, size);
      var found, a, f;
      found, a, f, i, k := FindFit(need);
      p := NULL;
      if found {
        MallocGives(h, i, size);
        TakeFit(a, f, need, i, k);
        p := a + HeadSize(ptr);
      }
    }

    // ----------------------------------------------------------------- free

    /** Mark block i free and put it first on the list (mm/simple_mm.c:183-185). */
    method Enlist(a: int, ghost i: int)
      requires InUse(State(), i) && blocks[i].addr == a
      modifies mem
      ensures Listing(old(State()), i, mem[..])
    {
      ghost var h := State();
      ListingReach(h, i);
      Put(a + 4, SetFree(mem[a + 4]));
      ListAddNode(a + 8);
    }

    /** Free block i and merge it with a free right neighbour
        (mm/simple_mm.c:173-208). The panic branches are unreachable. */
    method FreeForward(a: int, ghost i: int)
      requires InUse(State(), i) && blocks[i].addr == a
      modifies this`blocks, this`nodes, mem
      ensures Sound(State())
      ensures blocks == ForwardBlocks(old(blocks), i)
      ensures nodes == ForwardNodes(old(blocks), old(nodes), i)
      ensures PayloadsKept(old(State()), mem[..], i)
    {
      ghost var h := State();
      FreeReads(h, i);
      if mem[a] != MAGIC {
        assert false;
      }
      if IsFree(mem[a + 4]) {
        assert false;
      }
      Enlist(a, i);
      ghost var m2 := mem[..];
      FreeReadsNext(h, i, m2);
      var size := ExtractSize(mem[a + 4]);
      var s := a + size;
      if mem[s] != MAGIC {
        assert false;
      }
      if !IsFree(mem[s + 4]) {
        ReleasePlain(a, s, size, h, i, m2);
      } else {
        MergeNext(a, s, size, h, i, m2);
      }
      blocks := ForwardBlocks(blocks, i);
    }

    /** The right neighbour at s is in use (mm/simple_mm.c:192-197). */
    method ReleasePlain(a: int, s: int, size: int, ghost h: Heap, ghost i: int, ghost m2: Mem)
      requires State() == h.(mem := m2) && Listing(h, i, m2) && !FreeRight(h.blocks, i)
      requires a == h.blocks[i].addr && size == h.blocks[i].size && s == a + size && 8 <= s - 4 && s + 4 < |m2|
      modifies this`nodes, mem
      ensures Sound(Heap(ptr, head, base, end, mem[..], ForwardBlocks(h.blocks, i), nodes))
      ensures nodes == ForwardNodes(h.blocks, h.nodes, i)
      ensures PayloadsKept(h, mem[..], i)
    {
      Put(s + 4, SetPrevFree(mem[s + 4]));
      Put(s - 4, size);
      nodes := [a + 8] + nodes;
      ReleasePlainDone(h, i, m2, mem[..]);
    }

    /** The stores that join the block at a to the one at prev, forwards and
        backwards (mm/simple_mm.c:199-208, 153-163): the size of the lower block,
        the list, the footer. */
    method Absorb(prev: int, a: int, total: int) returns (ghost m2: Mem)
      requires 0 <= prev && prev + 4 < mem.Length && 0 <= prev + total - 4 < mem.Length
      requires var m1 := mem[..][prev + 4 := total + ExtractFlag(mem[..][prev + 4])];
        NodeFits(m1, ptr, a + 8) && NodeFits(m1, ptr, m1[a + 8]) && NodeFits(m1, ptr, m1[a + 8 + ptr])
      modifies mem
      ensures Absorbed(old(mem[..]), ptr, prev, a, total, m2, mem[..])
    {
      Put(prev + 4, total + ExtractFlag(mem[prev + 4]));
      ListDelNode(a + 8);
      m2 := mem[..];
      Put(prev + total - 4, total);
      AbsorbedIs(old(mem[..]), ptr, prev, a, total, m2, mem[..]);
    }

    /** The right neighbour at s is free (mm/simple_mm.c:199-208). */
    method MergeNext(a: int, s: int, size: int, ghost h: Heap, ghost i: int, ghost m2: Mem)
      requires State() == h.(mem := m2) && Listing(h, i, m2) && FreeRight(h.blocks, i)
      requires a == h.blocks[i].addr && size == h.blocks[i].size && s == a + size && 8 <= s - 4 && s + 4 < |m2|
      requires ExtractSize(m2[s + 4]) == h.blocks[i + 1].size
      modifies this`nodes, mem
      ensures Sound(Heap(ptr, head, base, end, mem[..], ForwardBlocks(h.blocks, i), nodes))
      ensures nodes == ForwardNodes(h.blocks, h.nodes, i)
      ensures PayloadsKept(h, mem[..], i)
    {
      ghost var k := FindNode(h, i + 1);
      MergingNextAt(h, i, k, m2);
      var total := size + ExtractSize(mem[s + 4]);
      ghost var w := total + ExtractFlag(mem[a + 4]);
      MergeNextReach(h, i, k, m2, m2[a + 4 := w], w);
      ghost var m4 := Absorb(a, s, total);
      nodes := Without([a + 8] + nodes, k + 1);
      MergeNextDone(h, i, k, m2, m4, mem[..]);
      DropNext(h, i, k);
    }

    /** ensure_prev_block_coalescing (mm/simple_mm.c:134-164) for block i + 1,
        whose left neighbour is free. The panic branches are unreachable. */
    method MergePrev(a: int, ghost i: int)
      requires Sound(State()) && 0 <= i && i + 1 < |blocks| && blocks[i].free && blocks[i + 1].free
      requires blocks[i + 1].addr == a
      modifies this`blocks, this`nodes, mem
      ensures Sound(State())
      ensures blocks == Replace(old(blocks), i, i + 2, [Joined(old(blocks)[i], old(blocks)[i + 1])])
      ensures nodes == Drop(old(nodes), a + 8)
      ensures PayloadsKept(old(State()), mem[..], -1)
    {
      ghost var h := State();
      BackwardReads(h, i);
      var prev := a - ExtractSize(mem[a - 4]);
      if mem[prev] != MAGIC {
        assert false;
      }
      if !IsFree(mem[prev + 4]) {
        assert false;
      }
      ghost var k := FindNode(h, i + 1);
      var total := ExtractSize(mem[prev + 4]) + ExtractSize(mem[a + 4]);
      BackwardReach(h, i, k, total + ExtractFlag(mem[prev + 4]));
      ghost var m2 := Absorb(prev, a, total);
      blocks := Replace(blocks, i, i + 2, [Joined(blocks[i], blocks[i + 1])]);
      nodes := Without(nodes, k);
      BackwardDone(h, i, k, m2, mem[..]);
      DropNode(h, k);
    }

    /** simple_free (mm/simple_mm.c:166-213) of a live pointer. */
    method Free(p: int, ghost i: int)
      requires Valid() && Live(p, i)
      modifies this`blocks, this`nodes, mem
      ensures Valid()
      ensures blocks == FreedBlocks(old(blocks), i)
      ensures nodes == FreedNodes(old(blocks), old(nodes), i)
      ensures PayloadsKept(old(State()), mem[..], i)
      ensures forall q :: LiveAt(blocks, HeadSize(ptr), q) <==> LiveAt(old(blocks), HeadSize(ptr), q) && q != p
    {
      ghost var h := State();
      InUseAt(h, i);
      FreeEnds(h, i);
      var a := p - HeadSize(ptr);
      FreeForward(a, i);
      ghost var h1 := State();
      PrevFlag(h, h1, i);
      if IsPrevFree(mem[a + 4]) {
        MergePrev(a, i - 1);
      }
      FreedCoalesced(h.blocks, i);
      FreeKeeps(h, h1, i, mem[..]);
    }

    // ----------------------------------------------------------- accounting

    /** simple_mm_get_free_memory (mm/simple_mm.c:282-293): the bytes of the free
        blocks of the tiling. */
    method GetFreeMemory() returns (bytes: int)
      requires Valid()
      ensures bytes == BytesWhere(blocks, true)
    {
      ghost var h := State();
      bytes := 0;
      ListStart(h);
      var it := mem[head + ptr];
      ghost var k := 0;
      while it != head
        invariant State() == h
        invariant 0 <= k <= |nodes| && it == (if k == |nodes| then head else nodes[k])
        invariant bytes == ListBytes(blocks, nodes[..k])
        decreases |nodes| - k
      {
        ghost var i := WalkReads(h, k);
        bytes := bytes + ExtractSize(mem[it - 8 + 4]);
        ListBytesStep(h, k, i);
        it := mem[it + ptr];
        k := k + 1;
      }
      if k < |nodes| {
        ghost var i := WalkReads(h, k);
      }
      assert nodes[..k] == nodes;
      ListBytesAll(h);
    }

    /** A caller writes a word inside the payload of block q. */
    method StorePayload(x: int, v: int, ghost q: int)
      requires Valid() && InPayload(State(), q, x)
      modifies mem
      ensures Valid() && mem[..] == old(mem[..])[x := v]
    {
      PayloadStoreSound(State(), q, x, v);
      mem[x] := v;
      assert State() == old(State()).(mem := old(mem[..])[x := v]);
    }

    // -------------------------------------------------------------- realloc

    /** memcpy (lib/mylib/string/string.c:5-10) into the payload of block j. */
    method CopyPayload(dst: int, src: int, n: int, ghost j: int)
      requires Valid() && 0 <= n && 0 <= src && src + n <= mem.Length && dst + n <= mem.Length
      requires 0 <= j < |blocks| && !blocks[j].free && 0 <= blocks[j].addr
      requires blocks[j].addr + HeadSize(ptr) <= dst && dst + n <= blocks[j].addr + blocks[j].size && 0 < ptr
      requires src + n <= dst || blocks[j].addr + blocks[j].size <= src
      modifies mem
      ensures Valid()
      ensures mem[dst..dst + n] == old(mem[src..src + n])
      ensures forall x :: 0 <= x < mem.Length && !(dst <= x < dst + n) ==> mem[x] == old(mem[x])
    {
      var x := 0;
      while x < n
        invariant 0 <= x <= n && Valid()
        invariant mem[dst..dst + x] == old(mem[src..src + x])
        invariant forall y :: 0 <= y < mem.Length && !(dst <= y < dst + x) ==> mem[y] == old(mem[y])
      {
        StorePayload(dst + x, mem[src + x], j);
        x := x + 1;
      }
    }

    /** The moving part of realloc (mm/simple_mm.c:264-265): copy `n` bytes, the
        size of the whole old block, then free the old block. */
    method MoveTo(p: int, q: int, n: int, ghost h: Heap, ghost i: int, ghost j: int, ghost size: int)
      returns (ghost r: int)
      requires Valid() && InUse(h, i) && 0 <= j < |h.blocks| && h.blocks[j].free
      requires var need := RoundUp(size) + HeadSize(ptr);
        h.ptr == ptr && blocks == TakenBlocks(h.blocks, j, need, HeadSize(ptr)) && h.blocks[j].size >= need
      requires n == h.blocks[i].size < size <= RoundUp(size)
      requires p == h.blocks[i].addr + HeadSize(ptr) && q == h.blocks[j].addr + HeadSize(ptr)
      requires PayloadsKept(h, mem[..], j)
      requires forall r :: LiveAt(blocks, HeadSize(ptr), r) <==> LiveAt(h.blocks, HeadSize(ptr), r) || r == q
      modifies this`blocks, this`nodes, mem
      ensures Valid() && Relocated(h, State(), p, q, i, r, size)
    {
      ghost var need := RoundUp(size) + HeadSize(ptr);
      ghost var h1 := State();
      ghost var i1 := ReallocBlocks(h, h1, i, j, need);
      ghost var h2 := CopyAndFree(p, q, n, i1, j);
      ghost var h3 := State();
      r := RelocateDone(h, h1, h2, h3, i, i1, j, n, size);
    }

    /** The copy into block j (to h2) and the free of block i1. */
    method CopyAndFree(p: int, q: int, n: int, ghost i1: int, ghost j: int) returns (ghost h2: Heap)
      requires Valid() && 0 <= n && 0 <= p && p + n <= mem.Length && q + n <= mem.Length && 0 < ptr && Live(p, i1)
      requires Live(q, j) && 0 <= blocks[j].addr && q + n <= blocks[j].addr + blocks[j].size
      requires p + n <= q || blocks[j].addr + blocks[j].size <= p
      modifies this`blocks, this`nodes, mem
      ensures Valid() && h2.ptr == ptr && h2.blocks == old(blocks) && Copied(old(mem[..]), h2.mem, p, q, n)
      ensures blocks == FreedBlocks(h2.blocks, i1) && PayloadsKept(h2, mem[..], i1)
      ensures forall x :: LiveAt(blocks, HeadSize(ptr), x) <==> LiveAt(old(blocks), HeadSize(ptr), x) && x != p
    {
      CopyPayload(q, p, n, j);
      h2 := State();
      Free(p, i1);
    }

    /** realloc of a live pointer to a nonzero size (mm/simple_mm.c:246-266). */
    method Resize(p: int, size: int, ghost i: int) returns (q: int, ghost r: int)
      requires Valid() && NonWrapping(ptr, size) && 0 < size && Live(p, i)
      modifies this`blocks, this`nodes, mem
      ensures Valid()
      ensures size <= old(blocks)[i].size ==> q == p && State() == old(State())
      ensures size > old(blocks)[i].size && q == NULL ==> State() == old(State())
      ensures size > old(blocks)[i].size && q != NULL ==> Relocated(old(State()), State(), p, q, i, r, size)
      ensures q == NULL <==> size > old(blocks)[i].size && NoFit(old(blocks), RoundUp(size) + HeadSize(ptr))
      ensures q != NULL ==> Live(q, r)
      ensures q != NULL ==> (Payload(r) >= size <==> !ShortInPlace(HeadSize(ptr), old(blocks)[i].size, size))
    {
      r := i;
      ghost var h := State();
      InUseAt(h, i);
      FreeReads(h, i);
      var a := p - HeadSize(ptr);
      if mem[a] != MAGIC {
        assert false;
      }
      var oldSize := ExtractSize(mem[a + 4]);
      if size <= oldSize {
        q := p;
        return;
      }
      ghost var j, k;
      q, j, k := Malloc(size);
      if q == NULL {
        return;
      }
      r := MoveTo(p, q, oldSize, h, i, j, size);
      RelocatedIs(h, State(), p, q, i, r, size);
    }

    /** The blocks and the list after first fit has taken block i for the request. */
    ghost predicate TakenFirst(was: seq<Block>, list: seq<int>, size: int, i: int)
      reads this
    {
      var need := RoundUp(size) + HeadSize(ptr);
      0 <= i < |was| && was[i].free && blocks == TakenBlocks(was, i, need, HeadSize(ptr))
      && exists k :: FirstFit(was, list, need, i, k) && nodes == TakenNodes(was, list, i, k, need, HeadSize(ptr))
    }

    /** simple_realloc (mm/simple_mm.c:235-267). A request that fits the whole
        old block, header included, returns the old pointer, so its payload falls
        short exactly when the request is within a header of the block's size.
        A larger request moves the payload. */
    method Realloc(p: int, size: int, ghost i: int) returns (q: int, ghost j: int)
      requires Valid() && NonWrapping(ptr, size) && (p == NULL || Live(p, i))
      modifies this`blocks, this`nodes, mem
      ensures Valid()
      ensures p == NULL && q != NULL ==> Gives(old(blocks), blocks, HeadSize(ptr), q, j, size)
      ensures p == NULL && q == NULL ==> State() == old(State())
      ensures p == NULL && q != NULL ==>
        PayloadsKept(old(State()), mem[..], j) && TakenFirst(old(blocks), old(nodes), size, j)
      ensures p != NULL && size == 0 ==>
        q == NULL && blocks == FreedBlocks(old(blocks), i) && nodes == FreedNodes(old(blocks), old(nodes), i)
      ensures p != NULL && size == 0 ==> PayloadsKept(old(State()), mem[..], i)
      ensures p != NULL && 0 < size <= old(blocks)[i].size ==> q == p && State() == old(State())
      ensures p != NULL && 0 < size && old(blocks)[i].size < size ==>
        if q == NULL then State() == old(State()) else Relocated(old(State()), State(), p, q, i, j, size)
      ensures p == NULL ==> (q == NULL <==> NoFit(old(blocks), RoundUp(size) + HeadSize(ptr)))
      ensures p != NULL && 0 < size ==>
        (q == NULL <==> size > old(blocks)[i].size && NoFit(old(blocks), RoundUp(size) + HeadSize(ptr)))
      ensures p != NULL && 0 < size && q != NULL ==>
        Live(q, j) && (Payload(j) >= size <==> !ShortInPlace(HeadSize(ptr), old(blocks)[i].size, size))
    {
      j := 0;
      ghost var k;
      if p == NULL {
        q, j, k := Malloc(size);
      } else if size == 0 {
        Free(p, i);
        q := NULL;
      } else {
        q, j := Resize(p, size, i);
      }
    }
  }
}
