/** What simple_malloc and simple_free do to the blocks and to the free list. */
module HeapOps {
  import opened SizeFlag
  import opened FreeList
  import opened HeapModel
  import opened HeapSteps

  // -------------------------------------------------------------- requests

  /** A size_t sum of two values below SizeMod. */
  function Wrap(ptr: int, x: int): int {
    if x < SizeMod(ptr) then x else x - SizeMod(ptr)
  }

  /** align_requested_size (mm/simple_mm.c:20-31), with size_t wrap-around. */
  function AlignRequested(ptr: int, size: int): int {
    if size < MIN_BLOCK_SIZE then MIN_BLOCK_SIZE
    else if size % 8 != 0 then var t := Wrap(ptr, size + 7); t - t % 8
    else size
  }

  /** The block size that malloc looks for, with size_t wrap-around. */
  function Need(ptr: int, size: int): int {
    Wrap(ptr, AlignRequested(ptr, size) + HeadSize(ptr))
  }

  /** The smallest positive multiple of 8 that holds `size` bytes. */
  function RoundUp(size: int): int {
    if size <= 8 then 8 else (size + 7) - (size + 7) % 8
  }

  /** Requests for which neither the rounding nor the header wraps. */
  predicate NonWrapping(ptr: int, size: int) {
    0 <= size <= SizeMod(ptr) - HeadSize(ptr) - 8
  }

  lemma RoundUpIs(size: int)
    ensures size <= RoundUp(size) && RoundUp(size) % 8 == 0 && RoundUp(size) >= 8
    ensures size > 8 ==> RoundUp(size) < size + 8
  {
  }

  lemma NeedExact(ptr: int, size: int)
    requires (ptr == 4 || ptr == 8) && NonWrapping(ptr, size)
    ensures Need(ptr, size) == RoundUp(size) + HeadSize(ptr)
    ensures size <= RoundUp(size) && RoundUp(size) % 8 == 0 && RoundUp(size) >= 8
    ensures size > 8 ==> RoundUp(size) < size + 8
  {
    RoundUpIs(size);
    assert AlignRequested(ptr, size) == RoundUp(size);
    var top := SizeMod(ptr) - HeadSize(ptr) - 8;
    assert top % 8 == 0;
    RoundUpBelow(size, top);
  }

  lemma RoundUpBelow(size: int, top: int)
    requires size <= top && top % 8 == 0 && 8 <= top
    ensures RoundUp(size) <= top
  {
  }

  /** For a free block of f bytes the comparison in the code is the intended
      one for every f exactly when the request does not wrap. */
  lemma WrapExactness(ptr: int, size: int)
    requires (ptr == 4 || ptr == 8) && 0 <= size < SizeMod(ptr)
    ensures (forall f :: HeadSize(ptr) <= f < 0x1_0000_0000 && f % 8 == 0 ==>
              (f >= Need(ptr, size) <==> f >= RoundUp(size) + HeadSize(ptr)))
      <==> NonWrapping(ptr, size)
  {
    if NonWrapping(ptr, size) {
      NeedExact(ptr, size);
    } else {
      WrappedNeed(ptr, size);
      var f := HeadSize(ptr) + 8;
      assert f % 8 == 0 && f >= Need(ptr, size) && !(f >= RoundUp(size) + HeadSize(ptr));
    }
  }

  /** A wrapping request asks for no more than a header: any free block will do. */
  lemma WrappedNeed(ptr: int, size: int)
    requires (ptr == 4 || ptr == 8) && 0 <= size < SizeMod(ptr) && !NonWrapping(ptr, size)
    ensures Need(ptr, size) <= HeadSize(ptr) && size > 0x1_0000_0000 - 40
    ensures RoundUp(size) + HeadSize(ptr) >= SizeMod(ptr)
  {
    var top, hs := SizeMod(ptr), HeadSize(ptr);
    RoundUpIs(size);
    MultipleAbove(top, size);
    if size <= top - 8 {
      RoundUpBelow(size, top - 8);
      MultipleAbove(RoundUp(size), top - hs - 8);
    }
  }

  lemma MultipleAbove(x: int, y: int)
    requires x % 8 == 0 && x > y
    ensures y % 8 == 0 ==> x >= y + 8
    ensures x < y + 8 ==> RoundUp(y) >= x || y <= 8
  {
  }

  // ------------------------------------------------------------- first fit

  /** The block at the address of node n. */
  ghost predicate IsBlock(blocks: seq<Block>, i: int, n: int) {
    0 <= i < |blocks| && blocks[i].addr == n - 8
  }

  /** Block i is the first in list order, at position k, with at least `need` bytes. */
  ghost predicate FirstFit(blocks: seq<Block>, nodes: seq<int>, need: int, i: int, k: int) {
    && 0 <= k < |nodes| && IsBlock(blocks, i, nodes[k]) && blocks[i].free && blocks[i].size >= need
    && forall q, j :: 0 <= q < k && IsBlock(blocks, j, nodes[q]) ==> blocks[j].size < need
  }

  ghost predicate NoFit(blocks: seq<Block>, need: int) {
    forall i :: 0 <= i < |blocks| && blocks[i].free ==> blocks[i].size < need
  }

  // ---------------------------------------------------------- the two steps

  ghost predicate Splits(b: Block, need: int, hs: int) {
    b.size - need > hs + MIN_BLOCK_SIZE
  }

  /** Blocks after block i is handed out (mm/simple_mm.c:93-123). */
  ghost function TakenBlocks(blocks: seq<Block>, i: int, need: int, hs: int): seq<Block>
    requires 0 <= i < |blocks|
  {
    if Splits(blocks[i], need, hs) then Replace(blocks, i, i + 1, Halves(blocks[i], need))
    else Replace(blocks, i, i + 1, [blocks[i].(free := false)])
  }

  ghost function TakenNodes(blocks: seq<Block>, nodes: seq<int>, i: int, k: int, need: int, hs: int): seq<int>
    requires 0 <= i < |blocks| && 0 <= k < |nodes|
  {
    if Splits(blocks[i], need, hs) then [blocks[i].addr + need + 8] + Without(nodes, k) else Without(nodes, k)
  }

  ghost predicate FreeLeft(blocks: seq<Block>, i: int)
    requires 0 <= i < |blocks|
  {
    i > 0 && blocks[i - 1].free
  }

  ghost predicate FreeRight(blocks: seq<Block>, i: int)
    requires 0 <= i < |blocks|
  {
    i + 1 < |blocks| && blocks[i + 1].free
  }

  /** Block i together with its free right neighbour, if any. */
  ghost function ForwardBlocks(blocks: seq<Block>, i: int): seq<Block>
    requires 0 <= i < |blocks|
  {
    if FreeRight(blocks, i) then Replace(blocks, i, i + 2, [Joined(blocks[i], blocks[i + 1])])
    else Replace(blocks, i, i + 1, [Freed(blocks[i])])
  }

  /** Blocks after block i is freed (mm/simple_mm.c:166-213). */
  ghost function FreedBlocks(blocks: seq<Block>, i: int): seq<Block>
    requires 0 <= i < |blocks|
  {
    var fwd := ForwardBlocks(blocks, i);
    if FreeLeft(blocks, i) then ForwardAt(blocks, i); Replace(fwd, i - 1, i + 1, [Joined(fwd[i - 1], fwd[i])])
    else fwd
  }

  /** The list without node n. */
  ghost function Drop(nodes: seq<int>, n: int): seq<int> {
    if nodes == [] then [] else if nodes[0] == n then nodes[1..] else [nodes[0]] + Drop(nodes[1..], n)
  }

  /** The list after forward coalescing: the freed block goes to the front, a
      merged right neighbour leaves. */
  ghost function ForwardNodes(blocks: seq<Block>, nodes: seq<int>, i: int): seq<int>
    requires 0 <= i < |blocks|
  {
    var all := [blocks[i].addr + 8] + nodes;
    if FreeRight(blocks, i) then Drop(all, blocks[i + 1].addr + 8) else all
  }

  /** The list after block i is freed: the block leaves again when its left
      neighbour absorbs it. */
  ghost function FreedNodes(blocks: seq<Block>, nodes: seq<int>, i: int): seq<int>
    requires 0 <= i < |blocks|
  {
    var fwd := ForwardNodes(blocks, nodes, i);
    if FreeLeft(blocks, i) then Drop(fwd, blocks[i].addr + 8) else fwd
  }

  lemma {:induction false} DropIsWithout(nodes: seq<int>, k: int)
    requires Distinct(nodes) && 0 <= k < |nodes|
    ensures Drop(nodes, nodes[k]) == Without(nodes, k)
  {
    if k > 0 {
      assert nodes[0] != nodes[k];
      DropIsWithout(nodes[1..], k - 1);
      assert Without(nodes, k) == [nodes[0]] + Without(nodes[1..], k - 1);
    } else {
      assert Without(nodes, k) == nodes[1..];
    }
  }

  lemma ForwardAt(blocks: seq<Block>, i: int)
    requires 0 <= i < |blocks|
    ensures var fwd := ForwardBlocks(blocks, i);
      && i < |fwd| && fwd[i].free && fwd[i].addr == blocks[i].addr
      && (forall j {:trigger fwd[j]} :: 0 <= j < i ==> fwd[j] == blocks[j])
      && |fwd| == if FreeRight(blocks, i) then |blocks| - 1 else |blocks|
  {
    var fwd := ForwardBlocks(blocks, i);
    forall j | 0 <= j <= i
      ensures j < i ==> fwd[j] == blocks[j]
    {
      if FreeRight(blocks, i) { ReplaceAt(blocks, i, i + 2, [Joined(blocks[i], blocks[i + 1])], j); }
      else { ReplaceAt(blocks, i, i + 1, [Freed(blocks[i])], j); }
    }
    if FreeRight(blocks, i) { ReplaceAt(blocks, i, i + 2, [Joined(blocks[i], blocks[i + 1])], i); }
    else { ReplaceAt(blocks, i, i + 1, [Freed(blocks[i])], i); }
  }

  // ---------------------------------------------------------- coalescing

  lemma ReplaceCoalesced(blocks: seq<Block>, i: int, j: int, mid: seq<Block>)
    requires Coalesced(blocks) && 0 <= i < j <= |blocks| && 0 < |mid| && Coalesced(mid)
    requires i > 0 ==> !(blocks[i - 1].free && mid[0].free)
    requires j < |blocks| ==> !(mid[|mid| - 1].free && blocks[j].free)
    ensures Coalesced(Replace(blocks, i, j, mid))
  {
    var r := Replace(blocks, i, j, mid);
    forall a, b | 0 <= a && b == a + 1 && b < |r|
      ensures !(r[a].free && r[b].free)
    {
      ReplaceAt(blocks, i, j, mid, a);
      ReplaceAt(blocks, i, j, mid, b);
    }
  }

  lemma TakenCoalesced(blocks: seq<Block>, i: int, need: int, hs: int)
    requires Coalesced(blocks) && 0 <= i < |blocks| && blocks[i].free
    ensures Coalesced(TakenBlocks(blocks, i, need, hs))
  {
    if Splits(blocks[i], need, hs) {
      ReplaceCoalesced(blocks, i, i + 1, Halves(blocks[i], need));
    } else {
      ReplaceCoalesced(blocks, i, i + 1, [blocks[i].(free := false)]);
    }
  }

  /** Freed block, right neighbour and left neighbour as one run. */
  lemma FreedIsOneRun(blocks: seq<Block>, i: int)
    requires 0 <= i < |blocks|
    ensures var lo := if FreeLeft(blocks, i) then i - 1 else i;
      var hi := if FreeRight(blocks, i) then i + 2 else i + 1;
      FreedBlocks(blocks, i)
        == Replace(blocks, lo, hi, [Block(blocks[lo].addr, Bytes(blocks[lo..hi]), true, blocks[lo].poisoned)])
  {
    ForwardAt(blocks, i);
    var lo := if FreeLeft(blocks, i) then i - 1 else i;
    var hi := if FreeRight(blocks, i) then i + 2 else i + 1;
    BytesOfRun(blocks, lo, hi);
    var mid := [Block(blocks[lo].addr, Bytes(blocks[lo..hi]), true, blocks[lo].poisoned)];
    ReplaceIs(blocks, lo, hi, mid);
    if FreeRight(blocks, i) { ReplaceIs(blocks, i, i + 2, [Joined(blocks[i], blocks[i + 1])]); }
    else { ReplaceIs(blocks, i, i + 1, [Freed(blocks[i])]); }
    if FreeLeft(blocks, i) {
      var fwd := ForwardBlocks(blocks, i);
      ReplaceIs(fwd, i - 1, i + 1, [Joined(fwd[i - 1], fwd[i])]);
      assert fwd[..i - 1] == blocks[..i - 1];
      assert fwd[i + 1..] == blocks[hi..];
    }
  }

  /** The sizes of a run of blocks added up. */
  ghost function Bytes(blocks: seq<Block>): int {
    if blocks == [] then 0 else blocks[0].size + Bytes(blocks[1..])
  }

  lemma BytesOfRun(blocks: seq<Block>, lo: int, hi: int)
    requires 0 <= lo < hi <= |blocks| && hi <= lo + 3
    ensures Bytes(blocks[lo..hi])
      == blocks[lo].size + (if lo + 1 < hi then blocks[lo + 1].size else 0)
      + (if lo + 2 < hi then blocks[lo + 2].size else 0)
    decreases hi - lo
  {
    var r := blocks[lo..hi];
    assert r[1..] == blocks[lo + 1..hi];
    if lo + 1 < hi {
      BytesOfRun(blocks, lo + 1, hi);
    }
  }

  lemma FreedCoalesced(blocks: seq<Block>, i: int)
    requires Coalesced(blocks) && 0 <= i < |blocks| && !blocks[i].free
    ensures Coalesced(FreedBlocks(blocks, i))
  {
    FreedIsOneRun(blocks, i);
    var lo := if FreeLeft(blocks, i) then i - 1 else i;
    var hi := if FreeRight(blocks, i) then i + 2 else i + 1;
    ReplaceCoalesced(blocks, lo, hi, [Block(blocks[lo].addr, Bytes(blocks[lo..hi]), true, blocks[lo].poisoned)]);
  }
}
