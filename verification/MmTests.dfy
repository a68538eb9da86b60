/** The boot-time allocator tests of init/test.c as client programs. */
module MmTests {
  import opened SizeFlag
  import opened HeapModel
  import opened HeapSteps
  import opened HeapOps
  import opened HeapRuns
  import opened HeapGlue
  import opened SimpleMm

  /** The whole region is one free block. */
  ghost predicate Unified(mm: Allocator)
    reads mm
  {
    |mm.blocks| == 1 && mm.blocks[0].free && mm.blocks[0].addr == mm.base && mm.blocks[0].size == mm.end - mm.base
  }

  /** The live pointers are exactly those of ptrs that are not in freed. */
  ghost predicate LiveAre(mm: Allocator, ptrs: seq<int>, freed: set<int>)
    reads mm
  {
    forall q :: LiveAt(mm.blocks, HeadSize(mm.ptr), q) <==> q in ptrs && q !in freed
  }

  lemma NoneLive(mm: Allocator, ptrs: seq<int>, freed: set<int>)
    requires mm.Valid() && LiveAre(mm, ptrs, freed) && forall j :: 0 <= j < |ptrs| ==> ptrs[j] in freed
    ensures Unified(mm)
  {
    forall i | 0 <= i < |mm.blocks|
      ensures mm.blocks[i].free
    {
      if !mm.blocks[i].free {
        assert LiveAt(mm.blocks, HeadSize(mm.ptr), mm.blocks[i].addr + HeadSize(mm.ptr));
      }
    }
    Unfold(mm.State());
    FullyCoalesced(mm.blocks, mm.base, mm.end, HeadSize(mm.ptr));
  }

  lemma StartEmpty(mm: Allocator)
    requires Unified(mm)
    ensures LiveAre(mm, [], {})
  {
  }

  /** Free every second pointer, from position `first` on. */
  method FreeEverySecond(mm: Allocator, ptrs: seq<int>, first: nat, ghost before: set<int>)
    returns (ghost freed: set<int>)
    requires mm.Valid() && first < 2 && Distinct(ptrs) && LiveAre(mm, ptrs, before)
    requires forall j :: 0 <= j < |ptrs| ==> (ptrs[j] in before <==> first == 1 && j % 2 == 0)
    modifies mm`blocks, mm`nodes, mm.mem
    ensures mm.Valid() && LiveAre(mm, ptrs, freed)
    ensures forall j :: 0 <= j < |ptrs| ==> (ptrs[j] in freed <==> (first == 1 && j % 2 == 0) || j % 2 == first)
  {
    freed := before;
    var i := first;
    while i < |ptrs|
      invariant i % 2 == first && mm.Valid() && LiveAre(mm, ptrs, freed)
      invariant forall j ::
        0 <= j < |ptrs| ==> (ptrs[j] in freed <==> (first == 1 && j % 2 == 0) || (j % 2 == first && j < i))
    {
      assert LiveAt(mm.blocks, HeadSize(mm.ptr), ptrs[i]);
      ghost var b :| 0 <= b < |mm.blocks| && !mm.blocks[b].free && ptrs[i] == mm.blocks[b].addr + HeadSize(mm.ptr);
      mm.Free(ptrs[i], b);
      freed := freed + {ptrs[i]};
      i := i + 2;
    }
  }

  /** test_swiss_cheese_stress (init/test.c:58-105): allocate blocks of any
      sizes until memory runs out, free the even ones, then the odd ones; the
      heap must be one free block again. */
  method SwissCheese(mm: Allocator, sizes: seq<int>)
    requires mm.Valid() && Unified(mm) && forall j :: 0 <= j < |sizes| ==> NonWrapping(mm.ptr, sizes[j])
    modifies mm`blocks, mm`nodes, mm.mem
    ensures mm.Valid() && Unified(mm)
  {
    var ptrs: seq<int> := [];
    var i := 0;
    StartEmpty(mm);
    while i < |sizes|
      invariant 0 <= i <= |sizes| && mm.Valid() && Distinct(ptrs) && LiveAre(mm, ptrs, {})
    {
      var p;
      ghost var b, k;
      p, b, k := mm.Malloc(sizes[i]);
      if p == NULL {
        break;
      }
      ptrs := ptrs + [p];
      i := i + 1;
    }
    ghost var freed := FreeEverySecond(mm, ptrs, 0, {});
    freed := FreeEverySecond(mm, ptrs, 1, freed);
    NoneLive(mm, ptrs, freed);
  }

  /** A freed block is the first of the list, unless its left neighbour absorbs
      it. */
  lemma FreedFirst(blocks: seq<Block>, nodes: seq<int>, i: int)
    requires 0 <= i < |blocks| && !FreeLeft(blocks, i) && forall j :: 0 <= j < |blocks| ==> blocks[j].size > 0
    requires i + 1 < |blocks| ==> blocks[i + 1].addr == blocks[i].addr + blocks[i].size
    ensures var after, list := FreedBlocks(blocks, i), FreedNodes(blocks, nodes, i);
      i < |after| && list != [] && IsBlock(after, i, list[0]) && after[i].free && after[i].size >= blocks[i].size
  {
    ForwardAt(blocks, i);
    if FreeRight(blocks, i) {
      ReplaceAt(blocks, i, i + 2, [Joined(blocks[i], blocks[i + 1])], i);
    } else {
      ReplaceAt(blocks, i, i + 1, [Freed(blocks[i])], i);
    }
  }

  /** The list is a stack: what was freed last is handed out first, if the
      request fits it. */
  method FreeThenMalloc(mm: Allocator, p: int, size: int, ghost i: int) returns (q: int)
    requires mm.Valid() && mm.Live(p, i) && !FreeLeft(mm.blocks, i) && NonWrapping(mm.ptr, size)
    requires RoundUp(size) <= mm.Payload(i)
    modifies mm`blocks, mm`nodes, mm.mem
    ensures mm.Valid() && q == p
  {
    Unfold(mm.State());
    FreedFirst(mm.blocks, mm.nodes, i);
    mm.Free(p, i);
    ghost var j, k;
    q, j, k := mm.Malloc(size);
  }

  /** The remainder of a split is the first of the list. */
  lemma RemainderFirst(blocks: seq<Block>, nodes: seq<int>, i: int, k: int, need: int, hs: int)
    requires 0 <= i < |blocks| && 0 <= k < |nodes|
    ensures blocks[i].size - need > hs + MIN_BLOCK_SIZE ==>
      var after, list := TakenBlocks(blocks, i, need, hs), TakenNodes(blocks, nodes, i, k, need, hs);
      && list != [] && IsBlock(after, i + 1, list[0]) && after[i + 1].free
      && after[i + 1].addr == blocks[i].addr + need && after[i + 1].size == blocks[i].size - need
  {
    if blocks[i].size - need > hs + MIN_BLOCK_SIZE {
      ReplaceAt(blocks, i, i + 1, Halves(blocks[i], need), i + 1);
    }
  }

  /** The remainder of a split is handed out next, if the request fits it: the
      second payload lies right behind the first, one header between them. */
  method MallocTwice(mm: Allocator, size: int, next: int) returns (p: int, q: int, ghost i: int)
    requires mm.Valid() && NonWrapping(mm.ptr, size) && NonWrapping(mm.ptr, next)
    modifies mm`blocks, mm`nodes, mm.mem
    ensures mm.Valid()
    ensures p == NULL <==> NoFit(old(mm.blocks), RoundUp(size) + HeadSize(mm.ptr))
    ensures p != NULL ==>
      0 <= i < |old(mm.blocks)| && old(mm.blocks)[i].free && p == old(mm.blocks)[i].addr + HeadSize(mm.ptr)
    ensures var hs := HeadSize(mm.ptr);
      p != NULL ==>
        var rest := old(mm.blocks)[i].size - hs - RoundUp(size);
        rest > hs + MIN_BLOCK_SIZE && RoundUp(next) + hs <= rest ==> q == p + RoundUp(size) + hs
  {
    ghost var k, j, l;
    ghost var was, list := mm.blocks, mm.nodes;
    p, i, k := mm.Malloc(size);
    q := NULL;
    if p != NULL {
      RemainderFirst(was, list, i, k, RoundUp(size) + HeadSize(mm.ptr), HeadSize(mm.ptr));
      q, j, l := mm.Malloc(next);
    }
  }

  /** 4-byte pointers, a block of 24 bytes: growing an 8-byte request to 24 bytes
      gives the same pointer back, still with 8 bytes behind it. */
  method ReallocFallsShort() returns (p: int, q: int, ghost payload: int)
    ensures q == p != NULL && payload == 8 < 24
  {
    var mm := new Allocator(4, 8, 256);
    var ok := mm.Init(64, 128, false);
    ghost var i, k, j;
    assert !NoFit(mm.blocks, 24) by {
      assert mm.blocks[0].free && mm.blocks[0].size == 112;
    }
    ghost var was := mm.blocks;
    p, i, k := mm.Malloc(8);
    ReplaceAt(was, 0, 1, Halves(was[0], 24), 0);
    q, j := mm.Realloc(p, 24, i);
    payload := mm.Payload(i);
  }

  /** 4-byte pointers, a region of 16 bytes: simple_init succeeds, and the header
      of its only block is not that of a free one. */
  method InitTooSmall() returns (ok: bool, free: bool)
    ensures ok && !free
  {
    var mm := new Allocator(4, 8, 256);
    ok := mm.Init(64, 16, false);
    free := mm.mem[64] == MAGIC && IsFree(mm.mem[68]);
  }
}
